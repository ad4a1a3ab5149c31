/** The string operations the modelled files call, on strings as sequences of characters.
    Every character the parsers test for is ASCII, so characters stand for the bytes or
    runes of the original. */
module Text {

  datatype Option<+T> = None | Some(value: T)

  // ---------- white space ----------

  predicate IsSpace(c: char) {
    || '\t' <= c <= '\r' || c == ' ' || c == '\U{85}' || c == '\U{A0}' || c == '\U{1680}'
    || '\U{2000}' <= c <= '\U{200A}' || c == '\U{2028}' || c == '\U{2029}' || c == '\U{202F}'
    || c == '\U{205F}' || c == '\U{3000}'
  }

  function TrimLeft(s: string): string {
    if s != "" && IsSpace(s[0]) then TrimLeft(s[1..]) else s
  }

  function TrimRight(s: string): string {
    if s != "" && IsSpace(s[|s| - 1]) then TrimRight(s[..|s| - 1]) else s
  }

  /** Removes the white space at both ends. */
  function Trim(s: string): (t: string)
    ensures |t| <= |s|
  {
    TrimRightShrinks(TrimLeft(s));
    TrimLeftShrinks(s);
    TrimRight(TrimLeft(s))
  }

  /** Neither end is white space. */
  predicate Trimmed(s: string) {
    s == "" || (!IsSpace(s[0]) && !IsSpace(s[|s| - 1]))
  }

  lemma TrimRightShrinks(s: string)
    ensures |TrimRight(s)| <= |s| && TrimRight(s) <= s
  {
  }

  lemma TrimLeftShrinks(s: string)
    ensures |TrimLeft(s)| <= |s|
  {
  }

  lemma {:induction false} TrimRightPrefix(s: string)
    ensures TrimRight(s) <= s
  {
    if s != "" && IsSpace(s[|s| - 1]) {
      TrimRightPrefix(s[..|s| - 1]);
    }
  }

  /** Trimming gives a trimmed text, and changes nothing on one. */
  lemma {:induction false} TrimIsTrimmed(s: string)
    ensures Trimmed(Trim(s))
    ensures Trimmed(s) ==> Trim(s) == s
  {
    TrimLeftStops(s);
    TrimRightStops(TrimLeft(s));
    TrimRightPrefix(TrimLeft(s));
  }

  lemma TrimLeftStops(s: string)
    ensures TrimLeft(s) == "" || !IsSpace(TrimLeft(s)[0])
  {
  }

  lemma TrimRightStops(s: string)
    ensures TrimRight(s) == "" || !IsSpace(TrimRight(s)[|TrimRight(s)| - 1])
  {
  }

  /** Spaces in front of a text are dropped by trimming. */
  lemma {:induction false} TrimSpaces(n: nat, s: string)
    ensures Trim(Spaces(n) + s) == Trim(s)
  {
    if n == 0 {
      assert Spaces(n) + s == s;
    } else {
      TrimSpaces(n - 1, s);
      assert (Spaces(n) + s)[1..] == Spaces(n - 1) + s;
    }
  }

  function Spaces(n: nat): (s: string)
    ensures |s| == n
  {
    if n == 0 then "" else " " + Spaces(n - 1)
  }

  /** The number of leading space characters. */
  function Indent(line: string): nat {
    if line != "" && line[0] == ' ' then 1 + Indent(line[1..]) else 0
  }

  lemma {:induction false} IndentOfSpaces(n: nat, s: string)
    requires s == "" || s[0] != ' '
    ensures Indent(Spaces(n) + s) == n
  {
    if n == 0 {
      assert Spaces(n) + s == s;
    } else {
      IndentOfSpaces(n - 1, s);
      assert (Spaces(n) + s)[1..] == Spaces(n - 1) + s;
    }
  }

  // ---------- splitting and joining ----------

  /** The position of the first `c`, or the length. */
  function IndexOf(s: string, c: char): (i: nat)
    ensures i <= |s| && c !in s[..i]
    ensures i < |s| ==> s[i] == c
  {
    if s == "" || s[0] == c then 0 else 1 + IndexOf(s[1..], c)
  }

  function Split(s: string, sep: char): (parts: seq<string>)
    ensures parts != []
  {
    var i := IndexOf(s, sep);
    if i == |s| then [s] else [s[..i]] + Split(s[i + 1..], sep)
  }

  function Join(parts: seq<string>, sep: string): string {
    if parts == [] then ""
    else if |parts| == 1 then parts[0]
    else parts[0] + sep + Join(parts[1..], sep)
  }

  lemma {:induction false} IndexOfAfter(a: string, c: char, b: string)
    requires c !in a
    ensures IndexOf(a + [c] + b, c) == |a|
  {
    if a != "" {
      assert (a + [c] + b)[1..] == a[1..] + [c] + b;
      IndexOfAfter(a[1..], c, b);
    }
  }

  lemma {:induction false} SplitJoin(parts: seq<string>, sep: char)
    requires parts != [] && forall p | p in parts :: sep !in p
    ensures Split(Join(parts, [sep]), sep) == parts
  {
    var s := Join(parts, [sep]);
    if |parts| == 1 {
      assert s == parts[0] && sep !in parts[0];
    } else {
      var rest := Join(parts[1..], [sep]);
      IndexOfAfter(parts[0], sep, rest);
      SplitJoin(parts[1..], sep);
      assert s[|parts[0]| + 1..] == rest;
      assert s[..|parts[0]|] == parts[0];
    }
  }

  // ---------- order ----------

  /** The order of Go's `<` on strings; on UTF-8 the byte order is the code point order. */
  predicate Less(a: string, b: string) {
    b != "" && (a == "" || a[0] < b[0] || (a[0] == b[0] && Less(a[1..], b[1..])))
  }

  lemma {:induction false} LessTotal(a: string, b: string)
    ensures a == b || Less(a, b) || Less(b, a)
    ensures !(Less(a, b) && Less(b, a))
    ensures Less(a, b) ==> a != b
  {
    if a != "" && b != "" && a[0] == b[0] {
      LessTotal(a[1..], b[1..]);
      assert a == [a[0]] + a[1..] && b == [b[0]] + b[1..];
    }
  }

  lemma {:induction false} LessTransitive(a: string, b: string, c: string)
    requires Less(a, b) && Less(b, c)
    ensures Less(a, c)
  {
    if a != "" && a[0] == b[0] == c[0] {
      LessTransitive(a[1..], b[1..], c[1..]);
    }
  }

  // ---------- strconv.Atoi ----------

  const MAX_UINT64: int := 0xFFFF_FFFF_FFFF_FFFF
  const MAX_INT64: int := 0x7FFF_FFFF_FFFF_FFFF
  const MIN_INT64: int := -0x8000_0000_0000_0000

  predicate IsDigit(c: char) {
    '0' <= c <= '9'
  }

  function DigitValue(c: char): (d: nat)
    requires IsDigit(c)
    ensures d <= 9
  {
    (c as int) - ('0' as int)
  }

  datatype Number = Syntax | Range(saturated: int) | Exact(value: int)

  /** The digit loop of ParseUint: it gives up at the first overflow, before it has looked
      at what follows. */
  function Digits(s: string, n: nat): (r: Number)
    ensures r.Exact? ==> r.value >= n
  {
    if s == "" then Exact(n)
    else if !IsDigit(s[0]) then Syntax
    else if n * 10 + DigitValue(s[0]) > MAX_UINT64 then Range(MAX_UINT64)
    else Digits(s[1..], n * 10 + DigitValue(s[0]))
  }

  /** The value of a signed decimal, with the saturated value on overflow of int64. */
  function Atoi(s: string): Number {
    var neg := s != "" && s[0] == '-';
    var body := if s != "" && (s[0] == '-' || s[0] == '+') then s[1..] else s;
    if body == "" then Syntax
    else match Digits(body, 0)
      case Syntax => Syntax
      case Range(_) => Range(if neg then MIN_INT64 else MAX_INT64)
      case Exact(u) =>
        if !neg && u > MAX_INT64 then Range(MAX_INT64)
        else if neg && u > -MIN_INT64 then Range(MIN_INT64)
        else Exact(if neg then -u else u)
  }

  /** The value used where the error is ignored. */
  function AtoiOrZero(s: string): int {
    match Atoi(s)
    case Syntax => 0
    case Range(v) => v
    case Exact(v) => v
  }

  function NatText(n: nat): (s: string)
    ensures s != "" && forall c | c in s :: IsDigit(c)
  {
    var d := ['0' + (n % 10) as char];
    if n < 10 then d else NatText(n / 10) + d
  }

  function IntText(i: int): string {
    if i < 0 then "-" + NatText(-i) else NatText(i)
  }

  lemma {:induction false} DigitsSnoc(s: string, c: char, n: nat)
    requires IsDigit(c) && Digits(s, n).Exact?
    requires Digits(s, n).value * 10 + DigitValue(c) <= MAX_UINT64
    ensures Digits(s + [c], n) == Exact(Digits(s, n).value * 10 + DigitValue(c))
  {
    if s != "" {
      assert (s + [c])[1..] == s[1..] + [c];
      DigitsSnoc(s[1..], c, n * 10 + DigitValue(s[0]));
    } else {
      assert (s + [c])[1..] == "";
    }
  }

  lemma {:induction false} DigitsOfNatText(n: nat)
    requires n <= MAX_UINT64
    ensures Digits(NatText(n), 0) == Exact(n)
  {
    var c := '0' + (n % 10) as char;
    assert DigitValue(c) == n % 10;
    if n < 10 {
      assert [c][1..] == "";
    } else {
      DigitsOfNatText(n / 10);
      DigitsSnoc(NatText(n / 10), c, 0);
    }
  }

  /** Reading back a printed 64-bit integer. */
  lemma AtoiOfIntText(i: int)
    requires MIN_INT64 <= i <= MAX_INT64
    ensures Atoi(IntText(i)) == Exact(i)
  {
    if i < 0 {
      DigitsOfNatText(-i);
      assert IntText(i)[1..] == NatText(-i);
    } else {
      DigitsOfNatText(i);
    }
  }

  lemma Assoc<T>(a: seq<T>, b: seq<T>, c: seq<T>)
    ensures a + (b + c) == a + b + c
  {
  }
}
