/** What internal/cliops/legacy_yaml.go has read when it accepts a document, whatever the text,
    and which texts around a printed block it rejects. */
module YamlReading {
  import opened Text
  import opened YamlFlow
  import opened YamlFlowPrint
  import opened YamlBlock
  import opened YamlBlockPrint

  // ---------- every text: a block reads deeper lines only ----------

  /** No line from `index` up to `next` stands left of column `indent`. */
  ghost predicate NotLeftOf(lines: seq<string>, index: nat, next: nat, indent: nat)
    requires next <= |lines|
  {
    forall i | index <= i < next :: Indent(lines[i]) >= indent
  }

  /** On success only lines from column `indent` on were read; an error names a line of the text
      and is never one of indentation. */
  ghost predicate Within(r: Parsed, lines: seq<string>, index: nat, indent: nat) {
    match r
    case Ok(_, next) => next <= |lines| && NotLeftOf(lines, index, next, indent)
    case Err(BadIndentation(_)) => false
    case Err(BadListMap(n)) => index < n <= |lines|
    case Err(BadLine(n)) => index < n <= |lines|
    case Err(RootNotMap) => false
  }

  lemma WithinJoins(first: nat, r: Parsed, lines: seq<string>, index: nat, indent: nat)
    requires index <= first <= |lines| && NotLeftOf(lines, index, first, indent) && Within(r, lines, first, indent)
    ensures Within(r, lines, index, indent)
  {
  }

  lemma WithinDeeper(r: Parsed, lines: seq<string>, index: nat, indent: nat, deeper: nat)
    requires Within(r, lines, index, deeper) && indent <= deeper
    ensures Within(r, lines, index, indent)
  {
  }

  lemma {:induction false} BlockStaysWithin(lines: seq<string>, index: nat, indent: nat)
    requires index < |lines| ==> Indent(lines[index]) == indent
    requires index <= |lines|
    ensures Within(ParseBlock(lines, index, indent), lines, index, indent)
    decreases |lines| - index, 3
  {
    if index < |lines| {
      if IsItem(lines[index]) {
        ListStaysWithin(lines, index, indent, []);
      } else {
        MapReadsItsKeys(lines, index, indent, map[]);
      }
    }
  }

  /** Below the line of a key only deeper lines belong to its value. */
  lemma {:induction false} EntryStaysWithin(lines: seq<string>, index: nat, raw: string, indent: nat)
    requires index < |lines|
    ensures var r := ParseEntry(lines, index, raw, indent);
            Within(r, lines, index + 1, indent + 1)
    decreases |lines| - index, 0
  {
    if raw == "" && index + 1 < |lines| && Indent(lines[index + 1]) > indent {
      BlockStaysWithin(lines, index + 1, Indent(lines[index + 1]));
      WithinDeeper(ParseBlock(lines, index + 1, Indent(lines[index + 1])), lines, index + 1, indent + 1,
                   Indent(lines[index + 1]));
    }
  }

  /** Every line read at the column of the keys has a key, and that key is in the map. */
  ghost predicate KeysRead(r: Parsed, lines: seq<string>, index: nat, indent: nat) {
    r.Ok? && r.next <= |lines| ==>
      && r.value.VMap?
      && forall i | index <= i < r.next && Indent(lines[i]) == indent ::
           SplitKey(Trim(lines[i])).Some? && SplitKey(Trim(lines[i])).value.0 in r.value.fields
  }

  ghost predicate Keeps(r: Parsed, fields: map<string, Value>) {
    r.Ok? ==> r.value.VMap? && fields.Keys <= r.value.fields.Keys
  }

  lemma {:induction false} MapReadsItsKeys(lines: seq<string>, index: nat, indent: nat, fields: map<string, Value>)
    requires index <= |lines|
    ensures var r := ParseMap(lines, index, indent, fields);
            Within(r, lines, index, indent) && KeysRead(r, lines, index, indent) && Keeps(r, fields)
    decreases |lines| - index, 2
  {
    if index < |lines| && Indent(lines[index]) == indent && SplitKey(Trim(lines[index])).Some? {
      var (key, raw) := SplitKey(Trim(lines[index])).value;
      EntryStaysWithin(lines, index, raw, indent);
      var entry := ParseEntry(lines, index, raw, indent);
      if entry.Ok? {
        var r := ParseMap(lines, entry.next, indent, fields[key := entry.value]);
        assert ParseMap(lines, index, indent, fields) == r;
        MapReadsItsKeys(lines, entry.next, indent, fields[key := entry.value]);
        hide SplitKey, Trim, ParseMap, ParseEntry, Indent;
        WithinJoins(entry.next, r, lines, index, indent);
      }
    }
  }

  lemma {:induction false} ItemMapStaysWithin(lines: seq<string>, index: nat, indent: nat, fields: map<string, Value>)
    requires index <= |lines|
    ensures Within(ParseItemMap(lines, index, indent, fields), lines, index, indent + 1)
    decreases |lines| - index, 1
  {
    if index < |lines| && Indent(lines[index]) > indent && SplitKey(Trim(lines[index])).Some? {
      var (key, raw) := SplitKey(Trim(lines[index])).value;
      var column := Indent(lines[index]);
      EntryStaysWithin(lines, index, raw, column);
      var entry := ParseEntry(lines, index, raw, column);
      if entry.Ok? {
        var r := ParseItemMap(lines, entry.next, indent, fields[key := entry.value]);
        assert ParseItemMap(lines, index, indent, fields) == r;
        ItemMapStaysWithin(lines, entry.next, indent, fields[key := entry.value]);
        hide SplitKey, Trim, ParseItemMap, ParseEntry, Indent;
        WithinJoins(entry.next, r, lines, index, indent + 1);
      }
    }
  }

  lemma {:induction false} ItemStaysWithin(lines: seq<string>, index: nat, indent: nat)
    requires index < |lines| && Indent(lines[index]) == indent && IsItem(lines[index])
    ensures Within(ParseItem(lines, index, indent), lines, index, indent)
    decreases |lines| - index, 1
  {
    var content := ItemContent(lines[index]);
    if KeyedItem(content) {
      var (key, raw) := KeyOrEmpty(content);
      EntryStaysWithin(lines, index, raw, indent);
      var entry := ParseEntry(lines, index, raw, indent);
      if entry.Ok? {
        var r := ParseItemMap(lines, entry.next, indent, map[key := entry.value]);
        assert ParseItem(lines, index, indent) == r;
        ItemMapStaysWithin(lines, entry.next, indent, map[key := entry.value]);
        hide SplitKey, Trim, ParseItemMap, ParseItem, ParseEntry, Indent;
        WithinDeeper(r, lines, entry.next, indent, indent + 1);
        WithinJoins(entry.next, r, lines, index, indent);
      }
    }
  }

  lemma {:induction false} ListStaysWithin(lines: seq<string>, index: nat, indent: nat, items: seq<Value>)
    requires index <= |lines|
    ensures Within(ParseList(lines, index, indent, items), lines, index, indent)
    ensures ParseList(lines, index, indent, items).Ok? ==> ParseList(lines, index, indent, items).value.VList?
    decreases |lines| - index, 2
  {
    if index < |lines| && Indent(lines[index]) == indent && IsItem(lines[index]) {
      ItemStaysWithin(lines, index, indent);
      var item := ParseItem(lines, index, indent);
      if item.Ok? {
        var r := ParseList(lines, item.next, indent, items + [item.value]);
        assert ParseList(lines, index, indent, items) == r;
        ListStaysWithin(lines, item.next, indent, items + [item.value]);
        hide ParseList, ParseItem, Indent, IsItem;
        WithinJoins(item.next, r, lines, index, indent);
      }
    }
  }

  // ---------- every text: an accepted document was read to its end ----------

  /** No content line stands left of the first one, and every one at its column has a key that
      is in the result. */
  ghost predicate WholeDocument(lines: seq<string>, fields: map<string, Value>)
    requires lines != []
  {
    && (forall i | 0 <= i < |lines| :: Indent(lines[i]) >= Indent(lines[0]))
    && forall i | 0 <= i < |lines| && Indent(lines[i]) == Indent(lines[0]) ::
         SplitKey(Trim(lines[i])).Some? && SplitKey(Trim(lines[i])).value.0 in fields
  }

  /** For every text: an accepted one was read as a whole, a rejected one is rejected at one of
      its lines, never for its indentation, or for its root. */
  lemma AcceptedIsWhole(input: string)
    ensures var lines, document := ContentLines(input), ParseLines(ContentLines(input));
            match document
            case Parsed(fields) => lines != [] && WholeDocument(lines, fields)
            case Rejected(BadLine(n)) => 1 <= n <= |lines|
            case Rejected(BadListMap(n)) => 1 <= n <= |lines|
            case Rejected(BadIndentation(_)) => false
            case Rejected(RootNotMap) => lines != [] && IsItem(lines[0])
            case Panics => lines == []
  {
    var lines := ContentLines(input);
    if lines != [] {
      var indent := Indent(lines[0]);
      BlockStaysWithin(lines, 0, indent);
      if IsItem(lines[0]) {
        ListStaysWithin(lines, 0, indent, []);
      } else {
        MapReadsItsKeys(lines, 0, indent, map[]);
      }
    }
  }

  // ---------- a line too many ----------

  lemma AtFront(a: seq<string>, b: seq<string>)
    ensures At(a + b, 0, a)
  {
    AtWhole([], a + b);
    assert [] + (a + b) == a + b;
    AtSplit(a + b, 0, a, b);
  }

  /** The key loop reads a printed map and stops before a line deeper than its last scalar. */
  lemma {:induction false} MapBeforeDeeper(
    lines: seq<string>, index: nat, entries: seq<Entry>, indent: nat, below: nat, step: nat,
    fields: map<string, Value>, end: nat)
    requires index <= |lines| && entries != [] && entries[|entries| - 1].node.Leaf?
    requires WritableEntries(entries) && step > 0 && indent < below
    requires At(lines, index, EntriesLines(entries, indent, below, step))
    requires end == index + |EntriesLines(entries, indent, below, step)| && Column(lines, end) > indent
    ensures ParseMap(lines, index, indent, fields) == Ok(VMap(EntriesMeaning(entries, fields)), end)
    decreases |entries|
  {
    var e, rest := entries[0], entries[1..];
    var next := index + |EntryLines(Spaces(indent), e, below, step)|;
    var value := NodeMeaning(e.node);
    assert WritableEntry(e) && WritableEntries(rest);
    EntriesAt(lines, index, entries, indent, below, step);
    EntryHead(lines, index, e, indent, below, step);
    if rest == [] {
      LeafBeforeDeeper(lines, index, e, indent, below, step);
      NothingMore(lines, end, indent, below, step, fields[e.key := value]);
    } else {
      EntriesFirstLine(rest, indent, below, step);
      assert Column(lines, next) == indent;
      hide *;
      EntryRoundTrip(lines, index, Spaces(indent), e, indent, below, step, next);
      MapBeforeDeeper(lines, next, rest, indent, below, step, fields[e.key := value], end);
    }
    hide *;
    EntriesMeaningStep(entries, fields);
    ParseMapStep(lines, index, indent, fields, e.key, EntryRaw(e), Ok(value, next));
  }

  lemma LeafBeforeDeeper(lines: seq<string>, index: nat, e: Entry, indent: nat, below: nat, step: nat)
    requires index < |lines| && e.node.Leaf? && WritableEntry(e)
    ensures |EntryLines(Spaces(indent), e, below, step)| == 1
    ensures ParseEntry(lines, index, EntryRaw(e), indent) == Ok(NodeMeaning(e.node), index + 1)
  {
    EntryTextSplits(e);
    FlowRoundTrip(e.node.flow);
    hide SplitKey, Trim, ParseScalar;
  }

  lemma NothingMore(lines: seq<string>, index: nat, indent: nat, below: nat, step: nat, fields: map<string, Value>)
    requires index <= |lines| && Column(lines, index) != indent
    ensures EntriesLines([], indent, below, step) == [] && EntriesMeaning([], fields) == fields
    ensures ParseMap(lines, index, indent, fields) == Ok(VMap(fields), index)
  {
  }

  /** A printed block followed by a line further left, or a printed map whose last value is a
      scalar followed by a deeper line, is rejected at that line. */
  lemma LineTooManyIsRejected(b: Block, indent: nat, step: nat, line: string, more: seq<string>)
    requires Writable(b) && step > 0
    requires || Indent(line) < indent
             || (Indent(line) > indent && b.Map? && b.entries[|b.entries| - 1].node.Leaf?)
    ensures var printed := BlockLines(b, indent, step);
            ParseLines(printed + ([line] + more)) == Rejected(BadLine(|printed| + 1))
  {
    var printed := BlockLines(b, indent, step);
    var lines := printed + ([line] + more);
    AtFront(printed, [line] + more);
    BlockFirstLine(b, indent, step);
    assert lines[0] == printed[0] && lines[|printed|] == line;
    if Indent(line) < indent {
      BlockRoundTrip(lines, 0, b, indent, step, |printed|);
    } else {
      MapBeforeDeeper(lines, 0, b.entries, indent, indent + step, step, map[], |printed|);
    }
    hide BlockLines, Indent;
  }

  // ---------- comments and blank lines ----------

  lemma {:induction false} TrimRightBlanksKeeps(n: nat, t: string)
    ensures "#" <= t ==> Spaces(n) + "#" <= TrimRightBlanks(Spaces(n) + t)
    ensures t == "" ==> TrimRightBlanks(Spaces(n) + t) == ""
    decreases |t|, n
  {
    var s := Spaces(n) + t;
    if t == "" {
      assert s == Spaces(n);
      BlanksOnly(n);
    } else if t[|t| - 1] in " \t" && |t| > 1 {
      assert s[..|s| - 1] == Spaces(n) + t[..|t| - 1];
      TrimRightBlanksKeeps(n, t[..|t| - 1]);
    }
  }

  lemma {:induction false} BlanksOnly(n: nat)
    ensures TrimRightBlanks(Spaces(n)) == "" && forall i | 0 <= i < n :: Spaces(n)[i] == ' '
  {
    if n > 0 {
      BlanksOnly(n - 1);
      assert Spaces(n)[..n - 1] == Spaces(n - 1);
    }
  }

  lemma {:induction false} TrimRightKeepsHash(t: string)
    requires "#" <= t
    ensures "#" <= TrimRight(t)
    decreases |t|
  {
    if |t| > 1 && IsSpace(t[|t| - 1]) {
      TrimRightKeepsHash(t[..|t| - 1]);
    }
  }

  /** A line that starts with a hash after any indentation, or has nothing after it, does not
      count wherever it stands. */
  lemma CommentsAreDropped(before: seq<string>, after: seq<string>, n: nat, t: string)
    requires t == "" || "#" <= t
    ensures Contents(before + [Spaces(n) + t] + after) == Contents(before) + Contents(after)
  {
    var line := TrimRightBlanks(Spaces(n) + t);
    TrimRightBlanksKeeps(n, t);
    assert !IsContent(line) by {
      if t != "" {
        var rest := line[n..];
        assert line == Spaces(n) + rest && "#" <= rest;
        TrimSpaces(n, rest);
        TrimRightKeepsHash(rest);
      }
    }
    hide IsContent, TrimRightBlanks;
    ContentsAppend(before + [Spaces(n) + t], after);
    ContentsAppend(before, [Spaces(n) + t]);
    assert Contents([]) == [] && [Spaces(n) + t][..0] == [];
    assert Contents([Spaces(n) + t]) == [];
    assert Contents(before) + [] == Contents(before);
  }

  lemma {:induction false} ContentsAppend(a: seq<string>, b: seq<string>)
    ensures Contents(a + b) == Contents(a) + Contents(b)
    decreases |b|
  {
    hide IsContent, TrimRightBlanks;
    if b == [] {
      assert a + b == a;
    } else {
      var init := b[..|b| - 1];
      assert (a + b)[..|a + b| - 1] == a + init;
      ContentsAppend(a, init);
    }
  }
}
