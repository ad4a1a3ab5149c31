/** The flow half of internal/cliops/legacy_yaml.go: the quote and bracket scanner, the
    splitters built on it, and the scalar parser, with a reference printer it undoes. */
module YamlFlow {
  import opened Text

  datatype Value =
    | VNull
    | VBool(b: bool)
    | VInt(i: int)
    | VStr(s: string)
    | VList(items: seq<Value>)
    | VMap(fields: map<string, Value>)

  // ---------- the scanner ----------

  const NO_QUOTE: char := '\0'

  /** The scanner's `depth` and `quote` variables. */
  datatype Scan = Scan(depth: int, quote: char)

  const START := Scan(0, NO_QUOTE)

  predicate IsQuote(c: char) {
    c == '\'' || c == '"'
  }

  function Step(st: Scan, c: char): Scan {
    if st.quote != NO_QUOTE then (if c == st.quote then st.(quote := NO_QUOTE) else st)
    else if IsQuote(c) then st.(quote := c)
    else if c == '[' || c == '{' then st.(depth := st.depth + 1)
    else if c == ']' || c == '}' then st.(depth := st.depth - 1)
    else st
  }

  /** The scanner acts on `mark` only outside quotes and brackets. */
  predicate Cuts(st: Scan, c: char, mark: char) {
    c == mark && st == START
  }

  /** The position of the first acted-on `mark`, or the length. */
  function FindMark(s: string, st: Scan, mark: char): (k: nat)
    ensures k <= |s|
    ensures k < |s| ==> s[k] == mark
  {
    if s == "" || Cuts(st, s[0], mark) then 0 else 1 + FindMark(s[1..], Step(st, s[0]), mark)
  }

  function Run(s: string, st: Scan): Scan {
    if s == "" then st else Run(s[1..], Step(st, s[0]))
  }

  predicate NoCut(s: string, st: Scan, mark: char) {
    FindMark(s, st, mark) == |s|
  }

  lemma {:induction false} FindMarkAppend(a: string, b: string, st: Scan, mark: char)
    requires NoCut(a, st, mark)
    ensures FindMark(a + b, st, mark) == |a| + FindMark(b, Run(a, st), mark)
    ensures Run(a + b, st) == Run(b, Run(a, st))
  {
    if a == "" {
      assert a + b == b;
    } else {
      assert (a + b)[1..] == a[1..] + b;
      FindMarkAppend(a[1..], b, Step(st, a[0]), mark);
    }
  }

  /** At a cut the scanner is back in its starting state. */
  lemma {:induction false} CutResets(s: string, st: Scan, mark: char)
    requires mark == ',' || mark == ':'
    ensures var k := FindMark(s, st, mark);
            NoCut(s[..k], st, mark) && (k < |s| ==> Run(s[..k], st) == START)
  {
    var k := FindMark(s, st, mark);
    if k > 0 {
      CutResets(s[1..], Step(st, s[0]), mark);
      assert s[..k][1..] == s[1..][..k - 1];
    }
  }

  // ---------- the splitters ----------

  function SplitKey(line: string): Option<(string, string)> {
    var k := FindMark(line, START, ':');
    if k < |line| then Some((Trim(line[..k]), Trim(line[k + 1..]))) else None
  }

  ghost function TotalLength(pieces: seq<string>): nat {
    if pieces == [] then 0 else TotalLength(pieces[..|pieces| - 1]) + |pieces[|pieces| - 1]| + 1
  }

  function SplitValues(s: string): (pieces: seq<string>)
    ensures pieces != []
  {
    var k := FindMark(s, START, ',');
    if k == |s| then [s] else [s[..k]] + SplitValues(s[k + 1..])
  }

  /** For every string: joining the pieces with commas gives the string back. */
  lemma {:induction false} JoinSplitValues(s: string)
    ensures Join(SplitValues(s), ",") == s
  {
    var k := FindMark(s, START, ',');
    if k < |s| {
      JoinSplitValues(s[k + 1..]);
      assert s == s[..k] + "," + s[k + 1..];
    }
  }

  /** For every string: each piece splits to itself. */
  lemma {:induction false} PiecesAreAtoms(s: string)
    ensures forall p | p in SplitValues(s) :: SplitValues(p) == [p]
  {
    var k := FindMark(s, START, ',');
    CutResets(s, START, ',');
    assert s[..|s|] == s;
    if k < |s| {
      PiecesAreAtoms(s[k + 1..]);
    }
  }

  lemma {:induction false} TotalLengthCons(p: string, pieces: seq<string>)
    ensures TotalLength([p] + pieces) == |p| + 1 + TotalLength(pieces)
  {
    if pieces != [] {
      assert ([p] + pieces)[..|pieces|] == [p] + pieces[..|pieces| - 1];
      TotalLengthCons(p, pieces[..|pieces| - 1]);
    } else {
      assert [p] + pieces == [p];
    }
  }

  lemma {:induction false} SplitValuesLength(s: string)
    ensures TotalLength(SplitValues(s)) == |s| + 1
  {
    var k := FindMark(s, START, ',');
    if k < |s| {
      SplitValuesAt(s, k);
      SplitValuesLength(s[k + 1..]);
      hide *;
      TotalLengthCons(s[..k], SplitValues(s[k + 1..]));
    } else {
      TotalLengthCons(s, []);
      assert [s] + [] == [s];
    }
  }

  // ---------- the scalar parser ----------

  predicate Enclosed(s: string, open: char, close: char) {
    |s| >= 2 && s[0] == open && s[|s| - 1] == close
  }

  function Inner(s: string): string
    requires |s| >= 2
  {
    s[1..|s| - 1]
  }

  /** What is left once quotes and brackets are ruled out. */
  function PlainScalar(s: string): Value {
    if s == "true" then VBool(true)
    else if s == "false" then VBool(false)
    else if s == "null" || s == "~" then VNull
    else match Atoi(s)
      case Exact(i) => VInt(i)
      case _ => VStr(s)
  }

  function ParseScalar(raw: string): Value
    decreases |raw|
  {
    var s := Trim(raw);
    if Enclosed(s, '\'', '\'') || Enclosed(s, '"', '"') then VStr(Inner(s))
    else if Enclosed(s, '[', ']') then
      SplitValuesLength(Inner(s));
      VList(ParseItems(SplitValues(Inner(s))))
    else if Enclosed(s, '{', '}') then
      SplitValuesLength(Inner(s));
      VMap(ParseFields(SplitValues(Inner(s))))
    else PlainScalar(s)
  }

  /** Blank pieces are skipped. */
  function ParseItems(pieces: seq<string>): seq<Value>
    decreases TotalLength(pieces)
  {
    if pieces == [] then []
    else
      var last := pieces[|pieces| - 1];
      ParseItems(pieces[..|pieces| - 1]) + (if Trim(last) == "" then [] else [ParseScalar(last)])
  }

  /** Pieces without a key are skipped, and a later key overwrites an earlier one. */
  function ParseFields(pieces: seq<string>): map<string, Value>
    decreases TotalLength(pieces)
  {
    if pieces == [] then map[]
    else
      var fields := ParseFields(pieces[..|pieces| - 1]);
      match SplitKey(Trim(pieces[|pieces| - 1]))
      case None => fields
      case Some((key, raw)) => SplitKeyShrinks(Trim(pieces[|pieces| - 1])); fields[key := ParseScalar(raw)]
  }

  lemma EmptyPieces()
    ensures ParseItems(SplitValues("")) == [] && ParseFields(SplitValues("")) == map[]
  {
    assert SplitValues("") == [""];
    assert [""][..0] == [];
  }

  lemma SplitKeyShrinks(line: string)
    ensures SplitKey(line).Some? ==> |SplitKey(line).value.1| < |line|
  {
  }

  // ---------- the loops ----------

  /** The scanner's state after the first `index` characters. */
  ghost function StateAt(s: string, index: nat): Scan
    requires index <= |s|
  {
    if index == 0 then START else Step(StateAt(s, index - 1), s[index - 1])
  }

  ghost predicate CutAt(s: string, index: nat, mark: char)
    requires index < |s|
  {
    Cuts(StateAt(s, index), s[index], mark)
  }

  /** Where the piece being read at `index` began. */
  ghost function PieceStart(s: string, index: nat): (start: nat)
    requires index <= |s|
    ensures start <= index
  {
    if index == 0 then 0
    else if CutAt(s, index - 1, ',') then index
    else PieceStart(s, index - 1)
  }

  /** The pieces completed before `index`. */
  ghost function PiecesBefore(s: string, index: nat): seq<string>
    requires index <= |s|
  {
    if index == 0 then []
    else if CutAt(s, index - 1, ',') then PiecesBefore(s, index - 1) + [s[PieceStart(s, index - 1)..index - 1]]
    else PiecesBefore(s, index - 1)
  }

  lemma FindMarkNext(s: string, index: nat, st: Scan, mark: char)
    requires index < |s|
    ensures FindMark(s[index..], st, mark) ==
            if Cuts(st, s[index], mark) then 0 else 1 + FindMark(s[index + 1..], Step(st, s[index]), mark)
  {
    assert s[index..][1..] == s[index + 1..];
  }

  lemma {:induction false} ScanningPiece(s: string, index: nat)
    requires index <= |s|
    ensures var start := PieceStart(s, index);
            FindMark(s[start..], START, ',') == index - start + FindMark(s[index..], StateAt(s, index), ',')
  {
    if index > 0 {
      ScanningPiece(s, index - 1);
      FindMarkNext(s, index - 1, StateAt(s, index - 1), ',');
    }
  }

  lemma SplitValuesAt(t: string, k: nat)
    requires k < |t| && FindMark(t, START, ',') == k
    ensures SplitValues(t) == [t[..k]] + SplitValues(t[k + 1..])
  {
  }

  lemma SplitAt(s: string, index: nat)
    requires index < |s| && CutAt(s, index, ',')
    ensures SplitValues(s[PieceStart(s, index)..]) ==
            [s[PieceStart(s, index)..index]] + SplitValues(s[index + 1..])
  {
    var start := PieceStart(s, index);
    ScanningPiece(s, index);
    FindMarkNext(s, index, StateAt(s, index), ',');
    hide *;
    SplitValuesAt(s[start..], index - start);
    assert s[start..][..index - start] == s[start..index];
    assert s[start..][index - start + 1..] == s[index + 1..];
  }

  lemma {:induction false} SplittingPieces(s: string, index: nat)
    requires index <= |s|
    ensures SplitValues(s) == PiecesBefore(s, index) + SplitValues(s[PieceStart(s, index)..])
  {
    if index == 0 {
      assert s[0..] == s;
    } else {
      SplittingPieces(s, index - 1);
      if CutAt(s, index - 1, ',') {
        var before, start := PiecesBefore(s, index - 1), PieceStart(s, index - 1);
        var rest := SplitValues(s[index..]);
        SplitAt(s, index - 1);
        Assoc(before, [s[start..index - 1]], rest);
      }
    }
  }

  /** What the loop has collected at its end is the split. */
  lemma SplitAtEnd(s: string)
    ensures SplitValues(s) == PiecesBefore(s, |s|) + [s[PieceStart(s, |s|)..]]
  {
    SplittingPieces(s, |s|);
    ScanningPiece(s, |s|);
  }

  /** The first colon the scanner acts on ends the key. */
  lemma {:induction false} ScanningKey(s: string, index: nat)
    requires index <= |s| && forall i: nat | i < index :: !CutAt(s, i, ':')
    ensures FindMark(s, START, ':') == index + FindMark(s[index..], StateAt(s, index), ':')
  {
    if index == 0 {
      assert s[0..] == s;
    } else {
      assert !CutAt(s, index - 1, ':');
      ScanningKey(s, index - 1);
      FindMarkNext(s, index - 1, StateAt(s, index - 1), ':');
    }
  }

  /** The quote and bracket bookkeeping both splitters share. */
  method Advance(depth: int, quote: char, c: char) returns (depth': int, quote': char)
    ensures Scan(depth', quote') == Step(Scan(depth, quote), c)
  {
    depth', quote' := depth, quote;
    if quote != NO_QUOTE {
      if c == quote {
        quote' := NO_QUOTE;
      }
    } else if c == '\'' || c == '"' {
      quote' := c;
    } else if c == '[' || c == '{' {
      depth' := depth + 1;
    } else if c == ']' || c == '}' {
      depth' := depth - 1;
    }
  }

  method SplitYamlKey(line: string) returns (key: string, raw: string, ok: bool)
    ensures ok <==> SplitKey(line).Some?
    ensures (key, raw) == if ok then SplitKey(line).value else ("", "")
  {
    var depth, quote := 0, NO_QUOTE;
    for index := 0 to |line|
      invariant Scan(depth, quote) == StateAt(line, index)
      invariant forall i: nat | i < index :: !CutAt(line, i, ':')
    {
      if quote == NO_QUOTE && line[index] == ':' && depth == 0 {
        ScanningKey(line, index);
        return Trim(line[..index]), Trim(line[index + 1..]), true;
      }
      depth, quote := Advance(depth, quote, line[index]);
    }
    ScanningKey(line, |line|);
    return "", "", false;
  }

  method SplitYamlValues(value: string) returns (items: seq<string>)
    ensures items == SplitValues(value)
  {
    items := [];
    var start, depth, quote := 0, 0, NO_QUOTE;
    for index := 0 to |value|
      invariant Scan(depth, quote) == StateAt(value, index)
      invariant start == PieceStart(value, index) && items == PiecesBefore(value, index)
    {
      if quote == NO_QUOTE && value[index] == ',' && depth == 0 {
        assert CutAt(value, index, ',');
        items := items + [value[start..index]];
        start := index + 1;
      } else {
        assert !CutAt(value, index, ',');
      }
      depth, quote := Advance(depth, quote, value[index]);
    }
    SplitAtEnd(value);
    items := items + [value[start..]];
  }

  method ParseYamlScalar(raw: string) returns (v: Value)
    ensures v == ParseScalar(raw)
    decreases |raw|
  {
    var value := Trim(raw);
    if Enclosed(value, '\'', '\'') || Enclosed(value, '"', '"') {
      return VStr(Inner(value));
    }
    if value == "[]" {
      EmptyPieces();
      return VList([]);
    }
    if value == "{}" {
      EmptyPieces();
      return VMap(map[]);
    }
    if Enclosed(value, '[', ']') {
      var items := ParseYamlItems(Inner(value));
      return VList(items);
    }
    if Enclosed(value, '{', '}') {
      var fields := ParseYamlFields(Inner(value));
      return VMap(fields);
    }
    return PlainScalar(value);
  }

  lemma ParseItemsNext(pieces: seq<string>, i: nat)
    requires i < |pieces|
    ensures ParseItems(pieces[..i + 1]) ==
            if Trim(pieces[i]) == "" then ParseItems(pieces[..i])
            else ParseItems(pieces[..i]) + [ParseScalar(pieces[i])]
  {
    assert pieces[..i + 1][..i] == pieces[..i];
  }

  method ParseYamlItems(inner: string) returns (items: seq<Value>)
    ensures items == ParseItems(SplitValues(inner))
    decreases |inner| + 1
  {
    items := [];
    var pieces := SplitYamlValues(inner);
    SplitValuesLength(inner);
    for i := 0 to |pieces|
      invariant items == ParseItems(pieces[..i])
    {
      ParseItemsNext(pieces, i);
      PieceFits(pieces, i);
      if Trim(pieces[i]) != "" {
        var item := ParseYamlScalar(pieces[i]);
        items := items + [item];
      }
    }
    assert pieces[..|pieces|] == pieces;
  }

  method ParseYamlFields(inner: string) returns (fields: map<string, Value>)
    ensures fields == ParseFields(SplitValues(inner))
    decreases |inner| + 1
  {
    fields := map[];
    var pieces := SplitYamlValues(inner);
    SplitValuesLength(inner);
    for i := 0 to |pieces|
      invariant fields == ParseFields(pieces[..i])
    {
      assert pieces[..i + 1][..i] == pieces[..i];
      PieceFits(pieces, i);
      var key, raw, ok := SplitYamlKey(Trim(pieces[i]));
      if ok {
        SplitKeyShrinks(Trim(pieces[i]));
        var item := ParseYamlScalar(raw);
        fields := fields[key := item];
      }
    }
    assert pieces[..|pieces|] == pieces;
  }

  lemma {:induction false} PieceFits(pieces: seq<string>, i: nat)
    requires i < |pieces|
    ensures |pieces[i]| < TotalLength(pieces)
  {
    if i < |pieces| - 1 {
      PieceFits(pieces[..|pieces| - 1], i);
    }
  }
}
