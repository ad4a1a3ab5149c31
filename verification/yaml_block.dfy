/** The block half of internal/cliops/legacy_yaml.go: the indentation-driven
    recursive-descent parser over content lines, and the document entry point. */
module YamlBlock {
  import opened Text
  import opened YamlFlow

  /** The errors, with the one-based line their messages name. */
  datatype ParseError =
    | BadIndentation(line: nat)
    | BadListMap(line: nat)
    | BadLine(line: nat)
    | RootNotMap

  datatype Parsed = Ok(value: Value, next: nat) | Err(error: ParseError)

  predicate IsItem(line: string) {
    "- " <= Trim(line)
  }

  function ItemContent(line: string): string
    requires IsItem(line)
  {
    Trim(Trim(line)[2..])
  }

  /** A list item is read as a map when it has a colon anywhere and is not a flow list. */
  predicate KeyedItem(content: string) {
    ':' in content && !("[" <= content)
  }

  /** The key and raw text of a keyed item; a colon the scanner does not act on leaves both empty. */
  function KeyOrEmpty(content: string): (string, string) {
    match SplitKey(content)
    case None => ("", "")
    case Some(pair) => pair
  }

  // ---------- what the recursive descent computes ----------

  function ParseBlock(lines: seq<string>, index: nat, indent: nat): (r: Parsed)
    requires index <= |lines|
    ensures r.Ok? ==> index <= r.next <= |lines| && (index < |lines| ==> index < r.next)
    decreases |lines| - index, 3
  {
    if index == |lines| then Ok(VMap(map[]), index)
    else if Indent(lines[index]) != indent then Err(BadIndentation(index + 1))
    else if IsItem(lines[index]) then ParseList(lines, index, indent, [])
    else ParseMap(lines, index, indent, map[])
  }

  /** The value of a key: the deeper block below it when nothing follows the colon. */
  function ParseEntry(lines: seq<string>, index: nat, raw: string, indent: nat): (r: Parsed)
    requires index < |lines|
    ensures r.Ok? ==> index < r.next <= |lines|
    decreases |lines| - index, 0
  {
    if raw == "" && index + 1 < |lines| && Indent(lines[index + 1]) > indent
    then ParseBlock(lines, index + 1, Indent(lines[index + 1]))
    else Ok(ParseScalar(raw), index + 1)
  }

  function ParseMap(lines: seq<string>, index: nat, indent: nat, fields: map<string, Value>): (r: Parsed)
    requires index <= |lines|
    ensures r.Ok? ==> index <= r.next <= |lines|
    ensures r.Ok? && index < |lines| && Indent(lines[index]) == indent ==> index < r.next
    decreases |lines| - index, 2
  {
    if index < |lines| && Indent(lines[index]) == indent then
      match SplitKey(Trim(lines[index]))
      case None => Err(BadLine(index + 1))
      case Some((key, raw)) =>
        match ParseEntry(lines, index, raw, indent)
        case Err(e) => Err(e)
        case Ok(value, next) => ParseMap(lines, next, indent, fields[key := value])
    else Ok(VMap(fields), index)
  }

  /** The further keys of a list item: every line deeper than the dash. */
  function ParseItemMap(lines: seq<string>, index: nat, indent: nat, fields: map<string, Value>): (r: Parsed)
    requires index <= |lines|
    ensures r.Ok? ==> index <= r.next <= |lines| && r.value.VMap?
    decreases |lines| - index, 1
  {
    if index < |lines| && Indent(lines[index]) > indent then
      match SplitKey(Trim(lines[index]))
      case None => Err(BadListMap(index + 1))
      case Some((key, raw)) =>
        match ParseEntry(lines, index, raw, Indent(lines[index]))
        case Err(e) => Err(e)
        case Ok(value, next) => ParseItemMap(lines, next, indent, fields[key := value])
    else Ok(VMap(fields), index)
  }

  function ParseItem(lines: seq<string>, index: nat, indent: nat): (r: Parsed)
    requires index < |lines| && IsItem(lines[index])
    ensures r.Ok? ==> index < r.next <= |lines|
    decreases |lines| - index, 1
  {
    var content := ItemContent(lines[index]);
    if KeyedItem(content) then
      var (key, raw) := KeyOrEmpty(content);
      match ParseEntry(lines, index, raw, indent)
      case Err(e) => Err(e)
      case Ok(value, next) => ParseItemMap(lines, next, indent, map[key := value])
    else Ok(ParseScalar(content), index + 1)
  }

  function ParseList(lines: seq<string>, index: nat, indent: nat, items: seq<Value>): (r: Parsed)
    requires index <= |lines|
    ensures r.Ok? ==> index <= r.next <= |lines|
    ensures r.Ok? && index < |lines| && Indent(lines[index]) == indent && IsItem(lines[index]) ==> index < r.next
    decreases |lines| - index, 2
  {
    if index < |lines| && Indent(lines[index]) == indent && IsItem(lines[index]) then
      match ParseItem(lines, index, indent)
      case Err(e) => Err(e)
      case Ok(value, next) => ParseList(lines, next, indent, items + [value])
    else Ok(VList(items), index)
  }

  // ---------- the recursive descent itself ----------

  /** The `(value, next, err)` triple of the source as one result. On success a block that
      starts on a line consumes at least that line and never reads past the end. */
  method ParseYamlBlock(lines: seq<string>, start: nat, indent: nat) returns (r: Parsed)
    requires start <= |lines|
    ensures r == ParseBlock(lines, start, indent)
    decreases |lines| - start, 3
  {
    if start >= |lines| {
      return Ok(VMap(map[]), start);
    }
    if Indent(lines[start]) != indent {
      return Err(BadIndentation(start + 1));
    }
    if IsItem(lines[start]) {
      r := ParseYamlList(lines, start, indent);
      return;
    }
    var fields: map<string, Value> := map[];
    var index := start;
    while index < |lines| && Indent(lines[index]) == indent
      invariant start <= index <= |lines|
      invariant ParseMap(lines, index, indent, fields) == ParseBlock(lines, start, indent)
      decreases |lines| - index
    {
      var key, raw, ok := SplitYamlKey(Trim(lines[index]));
      if !ok {
        return Err(BadLine(index + 1));
      }
      var entry := ParseYamlEntry(lines, index, raw, indent);
      if entry.Err? {
        return entry;
      }
      fields := fields[key := entry.value];
      index := entry.next;
    }
    return Ok(VMap(fields), index);
  }

  /** The step the three key loops of the source share. */
  method ParseYamlEntry(lines: seq<string>, index: nat, raw: string, indent: nat) returns (r: Parsed)
    requires index < |lines|
    ensures r == ParseEntry(lines, index, raw, indent)
    decreases |lines| - index, 0
  {
    if raw == "" && index + 1 < |lines| && Indent(lines[index + 1]) > indent {
      r := ParseYamlBlock(lines, index + 1, Indent(lines[index + 1]));
    } else {
      var value := ParseYamlScalar(raw);
      r := Ok(value, index + 1);
    }
  }

  method ParseYamlItem(lines: seq<string>, start: nat, indent: nat) returns (r: Parsed)
    requires start < |lines| && IsItem(lines[start])
    ensures r == ParseItem(lines, start, indent)
    decreases |lines| - start, 1
  {
    var content := ItemContent(lines[start]);
    if !KeyedItem(content) {
      var value := ParseYamlScalar(content);
      return Ok(value, start + 1);
    }
    var key, raw, _ := SplitYamlKey(content);
    var entry := ParseYamlEntry(lines, start, raw, indent);
    if entry.Err? {
      return entry;
    }
    var fields, index := map[key := entry.value], entry.next;
    while index < |lines| && Indent(lines[index]) > indent
      invariant start < index <= |lines|
      invariant ParseItemMap(lines, index, indent, fields) == ParseItem(lines, start, indent)
      decreases |lines| - index
    {
      var childKey, childRaw, ok := SplitYamlKey(Trim(lines[index]));
      if !ok {
        return Err(BadListMap(index + 1));
      }
      var child := ParseYamlEntry(lines, index, childRaw, Indent(lines[index]));
      if child.Err? {
        return child;
      }
      fields := fields[childKey := child.value];
      index := child.next;
    }
    return Ok(VMap(fields), index);
  }

  method ParseYamlList(lines: seq<string>, start: nat, indent: nat) returns (r: Parsed)
    requires start < |lines| && Indent(lines[start]) == indent && IsItem(lines[start])
    ensures r == ParseBlock(lines, start, indent)
    decreases |lines| - start, 2
  {
    var items: seq<Value> := [];
    var index := start;
    while index < |lines| && Indent(lines[index]) == indent && IsItem(lines[index])
      invariant start <= index <= |lines|
      invariant ParseList(lines, index, indent, items) == ParseBlock(lines, start, indent)
      decreases |lines| - index
    {
      var item := ParseYamlItem(lines, index, indent);
      if item.Err? {
        return item;
      }
      items := items + [item.value];
      index := item.next;
    }
    return Ok(VList(items), index);
  }

  // ---------- documents ----------

  /** Carriage returns before newlines are dropped. */
  function Unix(input: string): string {
    if |input| < 2 then input
    else if input[0] == '\r' && input[1] == '\n' then "\n" + Unix(input[2..])
    else [input[0]] + Unix(input[1..])
  }

  function TrimRightBlanks(line: string): string {
    if line != "" && line[|line| - 1] in " \t" then TrimRightBlanks(line[..|line| - 1]) else line
  }

  predicate IsContent(line: string) {
    Trim(line) != "" && !("#" <= Trim(line))
  }

  function Contents(raws: seq<string>): seq<string> {
    if raws == [] then []
    else
      var line := TrimRightBlanks(raws[|raws| - 1]);
      Contents(raws[..|raws| - 1]) + if IsContent(line) then [line] else []
  }

  function ContentLines(input: string): seq<string> {
    Contents(Split(Unix(input), '\n'))
  }

  /** The outcomes of the entry point: reading the indentation of the first content line
      panics when there is none. */
  datatype Document = Parsed(fields: map<string, Value>) | Rejected(error: ParseError) | Panics

  function ParseLines(lines: seq<string>): Document {
    if lines == [] then Panics
    else match ParseBlock(lines, 0, Indent(lines[0]))
      case Err(e) => Rejected(e)
      case Ok(value, next) =>
        if next != |lines| then Rejected(BadLine(next + 1))
        else if value.VMap? then Document.Parsed(value.fields)
        else Rejected(RootNotMap)
  }

  method ParseLegacyYaml(input: string) returns (document: Document)
    ensures document == ParseLines(ContentLines(input))
    ensures document == Panics <==> ContentLines(input) == []
  {
    var raws := Split(Unix(input), '\n');
    var lines: seq<string> := [];
    for i := 0 to |raws|
      invariant lines == Contents(raws[..i])
    {
      assert raws[..i + 1][..i] == raws[..i];
      var line := TrimRightBlanks(raws[i]);
      if IsContent(line) {
        lines := lines + [line];
      }
    }
    assert raws[..|raws|] == raws;
    if lines == [] {
      return Panics;
    }
    var block := ParseYamlBlock(lines, 0, Indent(lines[0]));
    if block.Err? {
      return Rejected(block.error);
    }
    if block.next != |lines| {
      return Rejected(BadLine(block.next + 1));
    }
    if !block.value.VMap? {
      return Rejected(RootNotMap);
    }
    return Document.Parsed(block.value.fields);
  }
}
