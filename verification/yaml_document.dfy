/** Whole documents of internal/cliops/legacy_yaml.go: comments, blank lines and line ends
    around a printed block do not matter, and where the list syntax gives a value away. */
module YamlDocument {
  import opened Text
  import opened YamlFlow
  import opened YamlFlowPrint
  import opened YamlBlock
  import opened YamlBlockPrint

  // ---------- line ends ----------

  /** A text that is one line, whichever line end follows. */
  predicate OneLine(r: string) {
    '\n' !in r && (r != "" ==> r[|r| - 1] != '\r')
  }

  lemma UnixNext(c: char, t: string)
    requires c == '\r' ==> t == "" || t[0] != '\n'
    ensures Unix([c] + t) == [c] + Unix(t)
  {
    assert ([c] + t)[1..] == t;
  }

  lemma UnixLineEnd(rest: string)
    ensures Unix("\n" + rest) == "\n" + Unix(rest) && Unix("\r\n" + rest) == "\n" + Unix(rest)
  {
    assert ("\n" + rest)[1..] == rest && ("\r\n" + rest)[2..] == rest;
  }

  lemma OneLineTail(r: string)
    requires OneLine(r) && r != ""
    ensures OneLine(r[1..]) && r == [r[0]] + r[1..]
    ensures r[0] == '\r' ==> r[1..] != "" && r[1..][0] != '\n'
  {
    assert |r| > 1 ==> r[1..][|r| - 2] == r[|r| - 1] && r[1..][0] == r[1];
  }

  lemma {:induction false} UnixStep(r: string, end: string)
    requires OneLine(r)
    ensures Unix(r + end) == r + Unix(end)
  {
    if r == "" {
      assert r + end == end && r + Unix(end) == Unix(end);
    } else {
      var c, t := r[0], r[1..];
      OneLineTail(r);
      hide *;
      UnixStep(t, end);
      Assoc([c], t, end);
      UnixNext(c, t + end);
      Assoc([c], t, Unix(end));
    }
  }

  lemma {:induction false} UnixJoin(raws: seq<string>, eol: string)
    requires eol == "\n" || eol == "\r\n"
    requires raws != [] && forall r | r in raws :: OneLine(r)
    ensures Unix(Join(raws, eol)) == Join(raws, "\n")
  {
    assert OneLine(raws[0]);
    if |raws| == 1 {
      UnixStep(raws[0], "");
      assert raws[0] + "" == raws[0] && Unix("") == "";
    } else {
      var rest := Join(raws[1..], eol);
      UnixJoin(raws[1..], eol);
      UnixStep(raws[0], eol + rest);
      UnixLineEnd(rest);
      Assoc(raws[0], eol, rest);
      Assoc(raws[0], "\n", Unix(rest));
    }
  }

  /** The content lines of a text are those of its lines. */
  lemma ContentLinesOfJoin(raws: seq<string>, eol: string)
    requires eol == "\n" || eol == "\r\n"
    requires raws != [] && forall r | r in raws :: OneLine(r)
    ensures ContentLines(Join(raws, eol)) == Contents(raws)
  {
    UnixJoin(raws, eol);
    SplitJoin(raws, '\n');
  }

  // ---------- printed lines survive the comment and blank filter ----------

  lemma LeadTextEnds(lead: string, t: string)
    requires t != "" && Trimmed(t)
    ensures lead + t != "" && !IsSpace((lead + t)[|lead + t| - 1])
  {
    assert (lead + t)[|lead + t| - 1] == t[|t| - 1];
  }

  ghost predicate EndsVisibly(line: string) {
    line != "" && !IsSpace(line[|line| - 1])
  }

  lemma {:induction false} BlockLinesEnd(b: Block, indent: nat, step: nat)
    requires Writable(b)
    ensures forall l | l in BlockLines(b, indent, step) :: EndsVisibly(l)
    decreases b, 1
  {
    match b
    case Map(entries) => EntriesLinesEnd(entries, indent, indent + step, step);
    case List(items) => ItemsLinesEnd(items, indent, step);
  }

  lemma {:induction false} EntryLinesEnd(lead: string, e: Entry, below: nat, step: nat)
    requires WritableEntry(e)
    ensures forall l | l in EntryLines(lead, e, below, step) :: EndsVisibly(l)
    decreases e, 2
  {
    EntryTextSplits(e);
    LeadTextEnds(lead, EntryText(e));
    if e.node.Nested? {
      BlockLinesEnd(e.node.block, below, step);
    }
  }

  lemma {:induction false} EntriesLinesEnd(entries: seq<Entry>, indent: nat, below: nat, step: nat)
    requires WritableEntries(entries)
    ensures forall l | l in EntriesLines(entries, indent, below, step) :: EndsVisibly(l)
    decreases entries, 3
  {
    if entries != [] {
      EntryLinesEnd(Spaces(indent), entries[0], below, step);
      EntriesLinesEnd(entries[1..], indent, below, step);
    }
  }

  lemma {:induction false} ItemsLinesEnd(items: seq<Item>, indent: nat, step: nat)
    requires WritableItems(items)
    ensures forall l | l in ItemsLines(items, indent, step) :: EndsVisibly(l)
    decreases items, 5
  {
    if items != [] {
      ItemLinesEnd(items[0], indent, step);
      ItemsLinesEnd(items[1..], indent, step);
    }
  }

  lemma {:induction false} ItemLinesEnd(item: Item, indent: nat, step: nat)
    requires WritableItem(item)
    ensures forall l | l in ItemLines(item, indent, step) :: EndsVisibly(l)
    decreases item, 4
  {
    match item
    case Scalar(flow) =>
      PrintIsTidy(flow);
      LeadTextEnds(Spaces(indent), "- " + Print(flow));
    case Keyed(entries) =>
      EntryLinesEnd(Spaces(indent) + "- ", entries[0], indent + 2 * step, step);
      EntriesLinesEnd(entries[1..], indent + step, indent + 2 * step, step);
  }

  lemma {:induction false} TrimKeepsVisibleEnd(line: string)
    requires EndsVisibly(line)
    ensures Trim(line) != ""
  {
    if IsSpace(line[0]) {
      assert |line| > 1 && line[1..][|line| - 2] == line[|line| - 1];
      TrimKeepsVisibleEnd(line[1..]);
    }
  }

  lemma {:induction false} ContentsKeepsLines(lines: seq<string>)
    requires forall l | l in lines :: EndsVisibly(l) && !("#" <= Trim(l))
    ensures Contents(lines) == lines
  {
    if lines != [] {
      var last := lines[|lines| - 1];
      assert EndsVisibly(last) && !("#" <= Trim(last));
      TrimKeepsVisibleEnd(last);
      ContentsKeepsLines(lines[..|lines| - 1]);
    }
  }

  // ---------- the document round trip ----------

  /** The entry point reads a printed map back, whatever comments and blank lines stand
      between its lines, for either line end, at every indentation and step. */
  lemma LegacyRoundTrip(raws: seq<string>, eol: string, b: Block, indent: nat, step: nat)
    requires Writable(b) && step > 0
    requires eol == "\n" || eol == "\r\n"
    requires raws != [] && forall r | r in raws :: OneLine(r)
    requires Contents(raws) == BlockLines(b, indent, step)
    ensures ParseLines(ContentLines(Join(raws, eol))) ==
            match b
            case Map(entries) => Document.Parsed(EntriesMeaning(entries, map[]))
            case List(_) => Rejected(RootNotMap)
  {
    var lines := BlockLines(b, indent, step);
    ContentLinesOfJoin(raws, eol);
    BlockFirstLine(b, indent, step);
    AtWhole([], lines);
    assert [] + lines == lines;
    BlockRoundTrip(lines, 0, b, indent, step, |lines|);
  }

  /** The printed lines themselves are such a text when none has a newline or reads as a comment. */
  lemma PrintedRoundTrip(eol: string, b: Block, indent: nat, step: nat)
    requires Writable(b) && b.Map? && step > 0
    requires eol == "\n" || eol == "\r\n"
    requires forall l | l in BlockLines(b, indent, step) :: '\n' !in l && !("#" <= Trim(l))
    ensures ParseLines(ContentLines(Join(BlockLines(b, indent, step), eol))) ==
            Document.Parsed(EntriesMeaning(b.entries, map[]))
  {
    var lines := BlockLines(b, indent, step);
    BlockLinesEnd(b, indent, step);
    BlockFirstLine(b, indent, step);
    forall r | r in lines ensures OneLine(r) {
      assert EndsVisibly(r);
    }
    ContentsKeepsLines(lines);
    LegacyRoundTrip(lines, eol, b, indent, step);
  }

  // ---------- which values survive as list items ----------

  /** The line at `index` belongs below the dash at column `indent`. */
  predicate Deeper(lines: seq<string>, index: nat, indent: nat) {
    index < |lines| && Indent(lines[index]) > indent
  }

  const EMPTY_KEYED := VMap(map["" := VStr("")])

  lemma PrintedItem(lines: seq<string>, index: nat, f: Flow, indent: nat)
    requires Printable(f)
    requires index < |lines| && lines[index] == Spaces(indent) + ("- " + Print(f))
    ensures IsItem(lines[index]) && ItemContent(lines[index]) == Print(f)
  {
    PrintIsTidy(f);
    DashLine(indent, Print(f));
  }

  /** A keyed item takes in at least one line that belongs below its dash. */
  lemma DeeperIsConsumed(lines: seq<string>, index: nat, indent: nat)
    requires index < |lines| && IsItem(lines[index]) && KeyedItem(ItemContent(lines[index]))
    requires Deeper(lines, index + 1, indent)
    ensures ParseItem(lines, index, indent).Ok? ==> ParseItem(lines, index, indent).next > index + 1
  {
    hide SplitKey, Trim, ParseScalar;
  }

  /** A keyed item with nothing below it is a map with one key. */
  lemma LoneKeyedItem(lines: seq<string>, index: nat, indent: nat)
    requires index < |lines| && IsItem(lines[index]) && KeyedItem(ItemContent(lines[index]))
    requires !Deeper(lines, index + 1, indent)
    ensures var pair := KeyOrEmpty(ItemContent(lines[index]));
            ParseItem(lines, index, indent) == Ok(VMap(map[pair.0 := ParseScalar(pair.1)]), index + 1)
  {
    var pair := KeyOrEmpty(ItemContent(lines[index]));
    assert ParseEntry(lines, index, pair.1, indent) == Ok(ParseScalar(pair.1), index + 1);
    hide SplitKey, Trim, ParseScalar;
  }

  /** All colons of a flow map are inside its braces, so as a list item it yields no key. */
  lemma FlowMapHasNoKey(fields: seq<Field>)
    requires Printable(FMap(fields))
    ensures KeyedItem(Print(FMap(fields))) <==> fields != []
    ensures SplitKey(Print(FMap(fields))) == None && ParseScalar("") == VStr("")
  {
    assert Trim("") == "";
    var pieces := FieldPieces(fields);
    var inner := Join(pieces, ",");
    FieldPiecesArePieces(fields);
    if fields == [] {
      assert inner == "";
    } else {
      JoinedPieces(pieces);
      FieldPiecesHaveColon(fields);
      JoinHasColon(pieces);
      assert Print(FMap(fields))[1..|Print(FMap(fields))| - 1] == inner;
    }
    BracesHideColons(inner);
  }

  /** A flow map with fields is read as a list item whose first key is empty, whatever its
      fields are; only the lines below it, if any, give it a value or further keys. */
  lemma FlowMapItemHasEmptyKey(lines: seq<string>, index: nat, fields: seq<Field>, indent: nat)
    requires Printable(FMap(fields)) && fields != []
    requires index < |lines| && lines[index] == Spaces(indent) + ("- " + Print(FMap(fields)))
    ensures IsItem(lines[index])
    ensures var first := ParseEntry(lines, index, "", indent);
            ParseItem(lines, index, indent) ==
            if first.Ok? then ParseItemMap(lines, first.next, indent, map["" := first.value]) else first
  {
    PrintedItem(lines, index, FMap(fields), indent);
    FlowMapHasNoKey(fields);
  }

  /** Of all flow values written as a list item, exactly these are read back: those not taken
      for a map, which a colon anywhere gives away, even inside quotes, unless the value starts
      with a bracket; and those that mean the map with one empty key and an empty text, which
      is what every flow map with fields is read as, when no line below belongs to the item. */
  lemma ScalarItemExactly(lines: seq<string>, index: nat, f: Flow, indent: nat)
    requires Printable(f)
    requires index < |lines| && lines[index] == Spaces(indent) + ("- " + Print(f))
    ensures IsItem(lines[index])
    ensures ParseItem(lines, index, indent) == Ok(Meaning(f), index + 1) <==>
            !KeyedItem(Print(f)) || (Meaning(f) == EMPTY_KEYED && !Deeper(lines, index + 1, indent))
  {
    PrintedItem(lines, index, f, indent);
    FlowRoundTrip(f);
    if KeyedItem(Print(f)) {
      if Deeper(lines, index + 1, indent) {
        DeeperIsConsumed(lines, index, indent);
      } else {
        LoneKeyedItem(lines, index, indent);
        if f.FMap? {
          FlowMapHasNoKey(f.fields);
        }
      }
    }
  }

  /** The one family of flow maps that survives is not empty. */
  lemma EmptyKeyedMapSurvives(lines: seq<string>, index: nat, indent: nat)
    requires index < |lines| && lines[index] == Spaces(indent) + "- {: \"\"}"
    requires !Deeper(lines, index + 1, indent)
    ensures IsItem(lines[index]) && KeyedItem(ItemContent(lines[index]))
    ensures ParseItem(lines, index, indent) == Ok(EMPTY_KEYED, index + 1)
  {
    var field := Field("", FQuoted('"', ""));
    var f := FMap([field]);
    assert [field][..0] == [] && FieldPieces([]) == [];
    assert Print(field.value) == "\"\"";
    assert FieldPieces([field]) == [Pad(0) + ("" + ": " + Print(field.value))];
    assert Pad(0) + ("" + ": " + "\"\"") == ": \"\"";
    assert NoCut("", START, ':') && NoCut("", START, ',') && Guarded("", START);
    assert PlainKey("");
    assert Print(f) == "{: \"\"}";
    assert FieldMeanings([field]) == map["" := VStr("")] by {
      assert [field][..0] == [];
    }
    ScalarItemExactly(lines, index, f, indent);
    PrintedItem(lines, index, f, indent);
  }

  lemma BracesHideColons(inner: string)
    requires Balanced(inner)
    ensures SplitKey("{" + inner + "}") == None
  {
    BracketsPass('{', inner, '}', ':');
  }

  lemma FieldPiecesHaveColon(fields: seq<Field>)
    requires fields != []
    ensures FieldPieces(fields) != [] && ':' in FieldPieces(fields)[|fields| - 1]
  {
    var last := fields[|fields| - 1];
    var piece := Pad(|fields| - 1) + (last.key + ": " + Print(last.value));
    assert piece[|Pad(|fields| - 1)| + |last.key|] == ':';
  }

  lemma {:induction false} JoinHasColon(pieces: seq<string>)
    requires pieces != [] && ':' in pieces[|pieces| - 1]
    ensures ':' in Join(pieces, ",")
  {
    if |pieces| > 1 {
      JoinHasColon(pieces[1..]);
    }
  }
}
