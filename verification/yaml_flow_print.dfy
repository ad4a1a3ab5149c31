/** A reference printer for flow values, and the proof that the scalar parser of
    internal/cliops/legacy_yaml.go undoes it. */
module YamlFlowPrint {
  import opened Text
  import opened YamlFlow

  /** A flow value as it is written: strings quoted or bare, maps with their field order. */
  datatype Flow =
    | FNull(tilde: bool)
    | FBool(b: bool)
    | FInt(i: int)
    | FQuoted(quote: char, s: string)
    | FBare(s: string)
    | FList(items: seq<Flow>)
    | FMap(fields: seq<Field>)

  datatype Field = Field(key: string, value: Flow)

  function Pad(n: nat): string {
    if n == 0 then "" else " "
  }

  function Print(f: Flow): string
    decreases f
  {
    match f
    case FNull(tilde) => if tilde then "~" else "null"
    case FBool(b) => if b then "true" else "false"
    case FInt(i) => IntText(i)
    case FQuoted(q, s) => [q] + s + [q]
    case FBare(s) => s
    case FList(items) => "[" + Join(ItemPieces(items), ",") + "]"
    case FMap(fields) => "{" + Join(FieldPieces(fields), ",") + "}"
  }

  function ItemPieces(items: seq<Flow>): (pieces: seq<string>)
    ensures |pieces| == |items|
    decreases items
  {
    if items == [] then []
    else ItemPieces(items[..|items| - 1]) + [Pad(|items| - 1) + Print(items[|items| - 1])]
  }

  function FieldPieces(fields: seq<Field>): (pieces: seq<string>)
    ensures |pieces| == |fields|
    decreases fields
  {
    if fields == [] then []
    else
      var last := fields[|fields| - 1];
      FieldPieces(fields[..|fields| - 1]) + [Pad(|fields| - 1) + (last.key + ": " + Print(last.value))]
  }

  // ---------- the value a flow text stands for ----------

  function Meaning(f: Flow): Value
    decreases f
  {
    match f
    case FNull(_) => VNull
    case FBool(b) => VBool(b)
    case FInt(i) => VInt(i)
    case FQuoted(_, s) => VStr(s)
    case FBare(s) => VStr(s)
    case FList(items) => VList(ItemMeanings(items))
    case FMap(fields) => VMap(FieldMeanings(fields))
  }

  function ItemMeanings(items: seq<Flow>): seq<Value>
    decreases items
  {
    if items == [] then []
    else ItemMeanings(items[..|items| - 1]) + [Meaning(items[|items| - 1])]
  }

  function FieldMeanings(fields: seq<Field>): map<string, Value>
    decreases fields
  {
    if fields == [] then map[]
    else FieldMeanings(fields[..|fields| - 1])[fields[|fields| - 1].key := Meaning(fields[|fields| - 1].value)]
  }

  // ---------- what can be written ----------

  /** From `st` on, the bracket depth never drops below zero. */
  predicate Guarded(s: string, st: Scan) {
    st.depth >= 0 && (s != "" ==> Guarded(s[1..], Step(st, s[0])))
  }

  predicate Balanced(s: string) {
    Guarded(s, START) && Run(s, START) == START
  }

  /** A text that stays one piece wherever it is put. */
  predicate Tidy(s: string) {
    s != "" && Trimmed(s) && Balanced(s) && NoCut(s, START, ',')
  }

  /** A key may hold anything the scanner does not act on; it may even be empty. */
  predicate PlainKey(k: string) {
    Trimmed(k) && Balanced(k) && NoCut(k, START, ':')
  }

  /** A bare text that no other reading of a scalar claims. */
  predicate BareText(s: string) {
    && Tidy(s)
    && !Enclosed(s, '\'', '\'') && !Enclosed(s, '"', '"') && !Enclosed(s, '[', ']') && !Enclosed(s, '{', '}')
    && s != "true" && s != "false" && s != "null" && s != "~"
    && !Atoi(s).Exact?
  }

  predicate Printable(f: Flow)
    decreases f
  {
    match f
    case FNull(_) => true
    case FBool(_) => true
    case FInt(i) => MIN_INT64 <= i <= MAX_INT64
    case FQuoted(q, s) => IsQuote(q) && q !in s
    case FBare(s) => BareText(s)
    case FList(items) => forall i | 0 <= i < |items| :: Printable(items[i])
    case FMap(fields) => forall i | 0 <= i < |fields| ::
        Printable(fields[i].value) && PlainKey(fields[i].key) && NoCut(fields[i].key, START, ',')
  }

  // ---------- how the scanner moves over printed text ----------

  /** The scanner goes from `from` to `to` over `s` without acting on `mark`. */
  ghost predicate Passes(s: string, from: Scan, to: Scan, mark: char) {
    NoCut(s, from, mark) && Guarded(s, from) && Run(s, from) == to
  }

  lemma {:induction false} RunAppend(a: string, b: string, st: Scan)
    ensures Run(a + b, st) == Run(b, Run(a, st))
    ensures Guarded(a, st) && Guarded(b, Run(a, st)) ==> Guarded(a + b, st)
  {
    if a == "" {
      assert a + b == b;
    } else {
      assert (a + b)[1..] == a[1..] + b;
      RunAppend(a[1..], b, Step(st, a[0]));
    }
  }

  lemma PassesAppend(a: string, b: string, from: Scan, via: Scan, to: Scan, mark: char)
    requires Passes(a, from, via, mark) && Passes(b, via, to, mark)
    ensures Passes(a + b, from, to, mark)
  {
    FindMarkAppend(a, b, from, mark);
    RunAppend(a, b, from);
  }

  lemma PassesChar(c: char, from: Scan, mark: char)
    requires !Cuts(from, c, mark) && from.depth >= 0 && Step(from, c).depth >= 0
    ensures Passes([c], from, Step(from, c), mark)
  {
    assert [c][1..] == "";
  }

  /** Inside one more bracket nothing is acted on. */
  lemma {:induction false} Nested(s: string, st: Scan, mark: char)
    requires Guarded(s, st)
    ensures var inner := st.(depth := st.depth + 1);
            Passes(s, inner, Run(s, st).(depth := Run(s, st).depth + 1), mark)
  {
    if s != "" {
      Nested(s[1..], Step(st, s[0]), mark);
    }
  }

  /** Inside quotes nothing is acted on, brackets and commas included. */
  lemma {:induction false} InQuotes(s: string, q: char, mark: char)
    requires IsQuote(q) && q !in s
    ensures Passes(s, Scan(0, q), Scan(0, q), mark)
  {
    if s != "" {
      InQuotes(s[1..], q, mark);
    }
  }

  predicate Ordinary(c: char) {
    !IsQuote(c) && c !in "[]{},:"
  }

  lemma {:induction false} OrdinaryText(s: string, mark: char)
    requires forall c | c in s :: Ordinary(c)
    requires mark == ',' || mark == ':'
    ensures Passes(s, START, START, mark)
  {
    if s != "" {
      assert Ordinary(s[0]);
      OrdinaryText(s[1..], mark);
    }
  }

  lemma IntTextIsTidy(i: int)
    ensures Tidy(IntText(i))
  {
    var s := IntText(i);
    forall c | c in s ensures Ordinary(c) && !IsSpace(c) {
      assert c == '-' || IsDigit(c);
    }
    assert !IsSpace(s[0]) && !IsSpace(s[|s| - 1]);
    OrdinaryText(s, ',');
  }

  lemma QuotedIsTidy(q: char, s: string)
    requires IsQuote(q) && q !in s
    ensures Tidy([q] + s + [q])
  {
    InQuotes(s, q, ',');
    PassesChar(q, START, ',');
    PassesChar(q, Scan(0, q), ',');
    PassesAppend([q], s, START, Scan(0, q), Scan(0, q), ',');
    PassesAppend([q] + s, [q], START, Scan(0, q), START, ',');
  }

  lemma BracketsPass(open: char, inner: string, close: char, mark: char)
    requires (open == '[' && close == ']') || (open == '{' && close == '}')
    requires mark == ',' || mark == ':'
    requires Balanced(inner)
    ensures Passes([open] + inner + [close], START, START, mark)
  {
    var one := Scan(1, NO_QUOTE);
    Nested(inner, START, mark);
    PassesChar(open, START, mark);
    PassesChar(close, one, mark);
    PassesAppend([open], inner, START, one, one, mark);
    PassesAppend([open] + inner, [close], START, one, START, mark);
  }

  /** A bracketed text is tidy whenever what it encloses is balanced. */
  lemma BracketsAreTidy(open: char, inner: string, close: char)
    requires (open == '[' && close == ']') || (open == '{' && close == '}')
    requires Balanced(inner)
    ensures Tidy([open] + inner + [close])
  {
    BracketsPass(open, inner, close, ',');
  }

  /** What a piece of a flow list or map must be for the splitter to return it whole. */
  ghost predicate Piece(p: string) {
    Passes(p, START, START, ',')
  }

  lemma {:induction false} JoinedPieces(pieces: seq<string>)
    requires pieces != [] && forall p | p in pieces :: Piece(p)
    ensures Balanced(Join(pieces, ",")) && SplitValues(Join(pieces, ",")) == pieces
  {
    var p := pieces[0];
    assert Piece(p);
    if |pieces| > 1 {
      var rest := Join(pieces[1..], ",");
      JoinedPieces(pieces[1..]);
      JoinedTwo(p, rest);
      assert Join(pieces, ",") == p + "," + rest;
      assert pieces == [p] + pieces[1..];
    }
  }

  lemma JoinedTwo(p: string, rest: string)
    requires Piece(p) && Balanced(rest)
    ensures Balanced(p + "," + rest) && SplitValues(p + "," + rest) == [p] + SplitValues(rest)
  {
    var s := p + "," + rest;
    assert s == p + ("," + rest);
    assert ("," + rest)[1..] == rest;
    FindMarkAppend(p, "," + rest, START, ',');
    RunAppend(p, "," + rest, START);
    assert s[..|p|] == p && s[|p| + 1..] == rest;
  }

  lemma PaddedPiece(n: nat, t: string)
    requires Piece(t)
    ensures Piece(Pad(n) + t) && Trim(Pad(n) + t) == Trim(t)
  {
    if n == 0 {
      assert Pad(n) + t == t;
    } else {
      PassesChar(' ', START, ',');
      PassesAppend(" ", t, START, START, START, ',');
      TrimSpaces(1, t);
      assert Pad(n) == Spaces(1);
    }
  }

  /** A line splits right after a key the scanner does not act on. */
  lemma SplitKeyAfter(k: string, rest: string)
    requires PlainKey(k)
    ensures SplitKey(k + ":" + rest) == Some((k, Trim(rest)))
  {
    var line := k + ":" + rest;
    assert line == k + (":" + rest);
    FindMarkAppend(k, ":" + rest, START, ':');
    TrimIsTrimmed(k);
    assert line[..|k|] == k && line[|k| + 1..] == rest;
  }

  lemma TrimOneSpace(t: string)
    requires Trimmed(t)
    ensures Trim(" " + t) == t
  {
    TrimSpaces(1, t);
    assert Spaces(1) == " ";
    TrimIsTrimmed(t);
  }

  /** `key: text` splits at its first colon. */
  lemma KeyedTextSplits(k: string, t: string)
    requires PlainKey(k) && Trimmed(t)
    ensures SplitKey(k + ": " + t) == Some((k, t))
  {
    SplitKeyAfter(k, " " + t);
    TrimOneSpace(t);
    assert k + ": " + t == k + ":" + (" " + t);
  }

  lemma KeyedTextTrimmed(k: string, t: string)
    requires Trimmed(k) && t != "" && Trimmed(t)
    ensures Trim(k + ": " + t) == k + ": " + t
  {
    var line := k + ": " + t;
    assert line[0] == if k == "" then ':' else k[0];
    assert line[|line| - 1] == t[|t| - 1];
    TrimIsTrimmed(line);
  }

  lemma KeyedText(k: string, t: string)
    requires PlainKey(k) && t != "" && Trimmed(t)
    ensures Trim(k + ": " + t) == k + ": " + t
    ensures SplitKey(k + ": " + t) == Some((k, t))
  {
    KeyedTextTrimmed(k, t);
    KeyedTextSplits(k, t);
  }

  lemma KeyedPiece(k: string, t: string)
    requires Balanced(k) && NoCut(k, START, ',') && Piece(t)
    ensures Piece(k + ": " + t)
  {
    PassesChar(':', START, ',');
    PassesChar(' ', START, ',');
    PassesAppend(":", " ", START, START, START, ',');
    PassesAppend(k, ": ", START, START, START, ',');
    PassesAppend(k + ": ", t, START, START, START, ',');
  }

  // ---------- printed texts are tidy ----------

  lemma {:induction false} PrintIsTidy(f: Flow)
    requires Printable(f)
    ensures Tidy(Print(f))
    decreases f
  {
    match f
    case FNull(_) => OrdinaryText("null", ','); OrdinaryText("~", ',');
    case FBool(b) => OrdinaryText("true", ','); OrdinaryText("false", ',');
    case FInt(i) => IntTextIsTidy(i);
    case FQuoted(q, s) => QuotedIsTidy(q, s);
    case FBare(_) =>
    case FList(items) =>
      ItemPiecesArePieces(items);
      if items != [] {
        JoinedPieces(ItemPieces(items));
      }
      BracketsAreTidy('[', Join(ItemPieces(items), ","), ']');
    case FMap(fields) =>
      FieldPiecesArePieces(fields);
      if fields != [] {
        JoinedPieces(FieldPieces(fields));
      }
      BracketsAreTidy('{', Join(FieldPieces(fields), ","), '}');
  }

  lemma {:induction false} ItemPiecesArePieces(items: seq<Flow>)
    requires forall i | 0 <= i < |items| :: Printable(items[i])
    ensures forall p | p in ItemPieces(items) :: Piece(p)
    decreases items
  {
    if items != [] {
      ItemPiecesArePieces(items[..|items| - 1]);
      PrintIsTidy(items[|items| - 1]);
      PaddedPiece(|items| - 1, Print(items[|items| - 1]));
    }
  }

  lemma {:induction false} FieldPiecesArePieces(fields: seq<Field>)
    requires Printable(FMap(fields))
    ensures forall p | p in FieldPieces(fields) :: Piece(p)
    decreases fields
  {
    if fields != [] {
      var last := fields[|fields| - 1];
      FieldPiecesArePieces(fields[..|fields| - 1]);
      PrintIsTidy(last.value);
      KeyedText(last.key, Print(last.value));
      KeyedPiece(last.key, Print(last.value));
      PaddedPiece(|fields| - 1, last.key + ": " + Print(last.value));
    }
  }

  // ---------- the round trip ----------

  lemma BracketedItems(pieces: seq<string>)
    requires forall p | p in pieces :: Piece(p)
    requires Tidy("[" + Join(pieces, ",") + "]")
    ensures ParseScalar("[" + Join(pieces, ",") + "]") == VList(ParseItems(pieces))
  {
    var t := "[" + Join(pieces, ",") + "]";
    TrimIsTrimmed(t);
    assert Inner(t) == Join(pieces, ",");
    if pieces == [] { EmptyPieces(); } else { JoinedPieces(pieces); }
  }

  lemma BracketedFields(pieces: seq<string>)
    requires forall p | p in pieces :: Piece(p)
    requires Tidy("{" + Join(pieces, ",") + "}")
    ensures ParseScalar("{" + Join(pieces, ",") + "}") == VMap(ParseFields(pieces))
  {
    var t := "{" + Join(pieces, ",") + "}";
    TrimIsTrimmed(t);
    assert Inner(t) == Join(pieces, ",");
    if pieces == [] { EmptyPieces(); } else { JoinedPieces(pieces); }
  }

  /** The parser returns the meaning of every printable value. */
  lemma {:induction false} FlowRoundTrip(f: Flow)
    requires Printable(f)
    ensures ParseScalar(Print(f)) == Meaning(f)
    decreases f
  {
    PrintIsTidy(f);
    TrimIsTrimmed(Print(f));
    hide Tidy, Trim, SplitValues, SplitKey;
    match f
    case FNull(_) =>
    case FBool(_) =>
    case FInt(i) =>
      AtoiOfIntText(i);
      assert IntText(i)[0] == '-' || IsDigit(IntText(i)[0]);
    case FQuoted(_, _) =>
    case FBare(_) =>
    case FList(items) =>
      ItemsRoundTrip(items);
      ItemPiecesArePieces(items);
      BracketedItems(ItemPieces(items));
    case FMap(fields) =>
      FieldsRoundTrip(fields);
      FieldPiecesArePieces(fields);
      BracketedFields(FieldPieces(fields));
  }

  lemma ParseItemsSnoc(pieces: seq<string>, n: nat, t: string)
    requires Tidy(t)
    ensures ParseItems(pieces + [Pad(n) + t]) == ParseItems(pieces) + [ParseScalar(t)]
  {
    PaddedPiece(n, t);
    TrimIsTrimmed(t);
    assert (pieces + [Pad(n) + t])[..|pieces|] == pieces;
    assert ParseScalar(Pad(n) + t) == ParseScalar(t);
  }

  lemma {:induction false} ItemsRoundTrip(items: seq<Flow>)
    requires forall i | 0 <= i < |items| :: Printable(items[i])
    ensures ParseItems(ItemPieces(items)) == ItemMeanings(items)
    decreases items
  {
    if items != [] {
      var init, last := items[..|items| - 1], items[|items| - 1];
      hide Printable, Print, Meaning, ParseScalar, ParseItems, Tidy;
      ItemsRoundTrip(init);
      PrintIsTidy(last);
      ParseItemsSnoc(ItemPieces(init), |init|, Print(last));
      FlowRoundTrip(last);
    }
  }

  lemma ParseFieldsSnoc(pieces: seq<string>, n: nat, k: string, t: string)
    requires PlainKey(k) && NoCut(k, START, ',') && Tidy(t)
    ensures ParseFields(pieces + [Pad(n) + (k + ": " + t)]) == ParseFields(pieces)[k := ParseScalar(t)]
  {
    var last := Pad(n) + (k + ": " + t);
    KeyedText(k, t);
    KeyedPiece(k, t);
    PaddedPiece(n, k + ": " + t);
    assert (pieces + [last])[..|pieces|] == pieces;
  }

  lemma {:induction false} FieldsRoundTrip(fields: seq<Field>)
    requires Printable(FMap(fields))
    ensures ParseFields(FieldPieces(fields)) == FieldMeanings(fields)
    decreases fields
  {
    if fields != [] {
      var init, last := fields[..|fields| - 1], fields[|fields| - 1];
      FieldsRoundTrip(init);
      PrintIsTidy(last.value);
      ParseFieldsSnoc(FieldPieces(init), |init|, last.key, Print(last.value));
      FlowRoundTrip(last.value);
    }
  }
}
