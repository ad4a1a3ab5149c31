/** Where the plain string order of prerelease tags in internal/autoupdate/autoupdate.go agrees
    with the identifier-by-identifier precedence of section 11 of Semantic Versioning 2.0.0. */
module SemverPrecedence {
  import opened Text
  import opened Semver

  // ---------- the precedence of the standard ----------

  predicate Numeric(s: string) {
    s != "" && forall i | 0 <= i < |s| :: IsDigit(s[i])
  }

  predicate IdentifierChar(c: char) {
    IsDigit(c) || 'a' <= c <= 'z' || 'A' <= c <= 'Z' || c == '-'
  }

  /** A numeric identifier has no leading zero. */
  predicate Identifier(s: string) {
    && s != "" && (forall i | 0 <= i < |s| :: IdentifierChar(s[i]))
    && (Numeric(s) && |s| > 1 ==> s[0] != '0')
  }

  ghost predicate Identifiers(x: seq<string>) {
    forall i | 0 <= i < |x| :: Identifier(x[i])
  }

  function PowerOfTen(n: nat): nat {
    if n == 0 then 1 else 10 * PowerOfTen(n - 1)
  }

  /** The number a digit string denotes. */
  function Value(s: string): nat
    requires forall i | 0 <= i < |s| :: IsDigit(s[i])
  {
    if s == "" then 0 else DigitValue(s[0]) * PowerOfTen(|s| - 1) + Value(s[1..])
  }

  /** Numbers numerically and below everything else, the rest in ASCII order. */
  predicate IdentifierLess(a: string, b: string) {
    if Numeric(a) && Numeric(b) then Value(a) < Value(b)
    else if Numeric(a) || Numeric(b) then Numeric(a)
    else Less(a, b)
  }

  /** Identifier by identifier; with all of them equal the longer list is higher. */
  predicate PrecedenceLess(x: seq<string>, y: seq<string>) {
    y != [] && (x == [] || IdentifierLess(x[0], y[0]) || (x[0] == y[0] && PrecedenceLess(x[1..], y[1..])))
  }

  function Precedence(x: seq<string>, y: seq<string>): int {
    if PrecedenceLess(x, y) then -1 else if PrecedenceLess(y, x) then 1 else 0
  }

  // ---------- when the string order agrees ----------

  /** Two different identifiers compare as strings as they do by precedence: numbers of
      different length when the shorter comes first as a string too, a number and a name when
      the number does, and two numbers of one length or two names always. */
  predicate PlainOrderAgrees(a: string, b: string) {
    if Numeric(a) && Numeric(b) then |a| == |b| || (if |a| < |b| then Less(a, b) else Less(b, a))
    else if Numeric(a) then Less(a, b)
    else if Numeric(b) then Less(b, a)
    else true
  }

  /** Where `a` ends, `b` goes on with a hyphen, which sorts before the dot. */
  predicate HyphenAfter(a: string, b: string) {
    |a| < |b| && a <= b && b[|a|] == '-'
  }

  /** The condition on two tags, read off their first differing identifiers. */
  predicate TagsAgree(x: seq<string>, y: seq<string>) {
    x == [] || y == [] ||
    if x[0] == y[0] then TagsAgree(x[1..], y[1..])
    else
      && PlainOrderAgrees(x[0], y[0])
      && !(|x| > 1 && HyphenAfter(x[0], y[0]))
      && !(|y| > 1 && HyphenAfter(y[0], x[0]))
  }

  // ---------- digit strings ----------

  lemma {:induction false} PowerGrows(m: nat, n: nat)
    requires m <= n
    ensures 1 <= PowerOfTen(m) <= PowerOfTen(n)
    decreases n
  {
    if m < n {
      PowerGrows(m, n - 1);
    } else if n > 0 {
      PowerGrows(m - 1, n - 1);
    }
  }

  lemma Weighed(d: nat, e: nat, weight: nat)
    requires d < e
    ensures d * weight + weight <= e * weight
  {
    assert (d + 1) * weight <= e * weight;
  }

  lemma {:induction false} ValueBelow(s: string)
    requires forall i | 0 <= i < |s| :: IsDigit(s[i])
    ensures Value(s) < PowerOfTen(|s|)
  {
    if s != "" {
      ValueBelow(s[1..]);
      Weighed(DigitValue(s[0]), 10, PowerOfTen(|s| - 1));
    }
  }

  /** Of two numbers written with the same number of digits the string order decides. */
  lemma {:induction false} SameLengthOrder(a: string, b: string)
    requires |a| == |b|
    requires forall i | 0 <= i < |a| :: IsDigit(a[i]) && IsDigit(b[i])
    ensures Value(a) < Value(b) <==> Less(a, b)
    ensures Value(a) == Value(b) <==> a == b
  {
    if a != "" {
      var weight := PowerOfTen(|a| - 1);
      SameLengthOrder(a[1..], b[1..]);
      ValueBelow(a[1..]);
      ValueBelow(b[1..]);
      assert a == [a[0]] + a[1..] && b == [b[0]] + b[1..];
      hide PowerOfTen;
      if a[0] < b[0] {
        Weighed(DigitValue(a[0]), DigitValue(b[0]), weight);
      } else if b[0] < a[0] {
        Weighed(DigitValue(b[0]), DigitValue(a[0]), weight);
      }
    }
  }

  /** Of two numbers without leading zeros the one with more digits is greater. */
  lemma LongerIsGreater(a: string, b: string)
    requires Identifier(a) && Identifier(b) && Numeric(a) && Numeric(b) && |a| < |b|
    ensures Value(a) < Value(b)
  {
    ValueBelow(a);
    PowerGrows(|a|, |b| - 1);
    Weighed(0, DigitValue(b[0]), PowerOfTen(|b| - 1));
  }

  // ---------- single identifiers ----------

  lemma IdentifierLessTotal(a: string, b: string)
    requires Identifier(a) && Identifier(b) && a != b
    ensures IdentifierLess(a, b) <==> !IdentifierLess(b, a)
  {
    LessTotal(a, b);
    if Numeric(a) && Numeric(b) {
      if |a| < |b| {
        LongerIsGreater(a, b);
      } else if |b| < |a| {
        LongerIsGreater(b, a);
      } else {
        SameLengthOrder(a, b);
      }
    }
  }

  lemma PlainOrderExactly(a: string, b: string)
    requires Identifier(a) && Identifier(b) && a != b
    ensures (Less(a, b) <==> IdentifierLess(a, b)) <==> PlainOrderAgrees(a, b)
  {
    LessTotal(a, b);
    if Numeric(a) && Numeric(b) {
      if |a| < |b| {
        LongerIsGreater(a, b);
      } else if |b| < |a| {
        LongerIsGreater(b, a);
      } else {
        SameLengthOrder(a, b);
      }
    }
  }

  lemma {:induction false} PrefixIsLess(a: string, b: string)
    requires a <= b && a != b
    ensures Less(a, b)
  {
    if a != "" {
      PrefixIsLess(a[1..], b[1..]);
    }
  }

  /** An identifier that goes on with a hyphen is above the one that ends there, either way. */
  lemma HyphenIsAbove(a: string, b: string)
    requires Identifier(a) && Identifier(b) && HyphenAfter(a, b)
    ensures Less(a, b) && IdentifierLess(a, b) && !Less(b, a) && !HyphenAfter(b, a)
  {
    PrefixIsLess(a, b);
    LessTotal(a, b);
    assert !IsDigit(b[|a|]);
  }

  // ---------- the first differing identifiers in their tags ----------

  lemma {:induction false} LessCommon(p: string, u: string, v: string)
    ensures Less(p + u, p + v) <==> Less(u, v)
  {
    if p == "" {
      assert p + u == u && p + v == v;
    } else {
      assert (p + u)[1..] == p[1..] + u && (p + v)[1..] == p[1..] + v;
      LessCommon(p[1..], u, v);
    }
  }

  lemma {:induction false} LessApart(a: string, e: string, b: string, f: string)
    requires !(a <= b) && !(b <= a)
    ensures Less(a + e, b + f) <==> Less(a, b)
  {
    assert (a + e)[0] == a[0] && (b + f)[0] == b[0];
    if a[0] == b[0] {
      assert a == [a[0]] + a[1..] && b == [b[0]] + b[1..];
      assert (a + e)[1..] == a[1..] + e && (b + f)[1..] == b[1..] + f;
      LessApart(a[1..], e, b[1..], f);
    }
  }

  /** What follows an identifier in its tag. */
  ghost predicate Tail(e: string) {
    e == "" || e[0] == '.'
  }

  /** A longer identifier against the tail of a shorter one that it starts with. */
  lemma PrefixAgainstTail(a: string, e: string, b: string, f: string)
    requires Identifier(b) && a <= b && a != b && Tail(e)
    ensures Less(a + e, b + f) <==> e == "" || !HyphenAfter(a, b)
    ensures Less(b + f, a + e) <==> !Less(a + e, b + f)
  {
    var rest := b[|a|..] + f;
    assert b + f == a + rest;
    LessCommon(a, e, rest);
    LessCommon(a, rest, e);
    assert rest[0] == b[|a|] && IdentifierChar(b[|a|]);
  }

  lemma HeadsDecide(a: string, e: string, b: string, f: string)
    requires Identifier(a) && Identifier(b) && a != b && Tail(e) && Tail(f)
    ensures (Less(a + e, b + f) <==> IdentifierLess(a, b)) <==>
            PlainOrderAgrees(a, b) && !(e != "" && HyphenAfter(a, b)) && !(f != "" && HyphenAfter(b, a))
  {
    PlainOrderExactly(a, b);
    IdentifierLessTotal(a, b);
    if HyphenAfter(a, b) {
      HyphenIsAbove(a, b);
    }
    if HyphenAfter(b, a) {
      HyphenIsAbove(b, a);
    }
    LessTotal(a, b);
    hide Identifier, IdentifierLess, PlainOrderAgrees, Less;
    if a <= b {
      PrefixIsLess(a, b);
      PrefixAgainstTail(a, e, b, f);
    } else if b <= a {
      PrefixIsLess(b, a);
      PrefixAgainstTail(b, f, a, e);
    } else {
      LessApart(a, e, b, f);
    }
  }

  // ---------- whole tags ----------

  ghost function TailOf(x: seq<string>): string
    requires x != []
  {
    if |x| == 1 then "" else "." + Join(x[1..], ".")
  }

  lemma JoinIsHeadAndTail(x: seq<string>)
    requires x != []
    ensures Join(x, ".") == x[0] + TailOf(x) && Tail(TailOf(x)) && (TailOf(x) == "" <==> |x| == 1)
  {
    if |x| > 1 {
      Assoc(x[0], ".", Join(x[1..], "."));
    } else {
      assert x[0] + "" == x[0];
    }
  }

  lemma {:induction false} PlainTagsExactly(x: seq<string>, y: seq<string>)
    requires Identifiers(x) && Identifiers(y) && x != [] && y != []
    ensures (Less(Join(x, "."), Join(y, ".")) <==> PrecedenceLess(x, y)) <==> TagsAgree(x, y)
    decreases |x|
  {
    var a, b := x[0], y[0];
    JoinIsHeadAndTail(x);
    JoinIsHeadAndTail(y);
    assert Identifier(a) && Identifier(b);
    hide Join, Less, Identifier, IdentifierLess, HyphenAfter, PlainOrderAgrees, Tail;
    if a != b {
      HeadsDecide(a, TailOf(x), b, TailOf(y));
    } else {
      LessCommon(a, TailOf(x), TailOf(y));
      NotBelowItself(a);
      TailsCompare(x, y);
      if |x| > 1 && |y| > 1 {
        PlainTagsExactly(x[1..], y[1..]);
      }
    }
  }

  lemma NotBelowItself(a: string)
    requires Identifier(a)
    ensures !IdentifierLess(a, a)
  {
    LessTotal(a, a);
  }

  lemma TailsCompare(x: seq<string>, y: seq<string>)
    requires x != [] && y != []
    ensures Less(TailOf(x), TailOf(y)) <==>
            |y| > 1 && (|x| == 1 || Less(Join(x[1..], "."), Join(y[1..], ".")))
  {
    if |x| > 1 && |y| > 1 {
      LessCommon(".", Join(x[1..], "."), Join(y[1..], "."));
    }
  }

  lemma {:induction false} PrecedenceTotal(x: seq<string>, y: seq<string>)
    requires Identifiers(x) && Identifiers(y)
    ensures x == y ==> !PrecedenceLess(x, y)
    ensures x != y ==> (PrecedenceLess(x, y) <==> !PrecedenceLess(y, x))
    decreases |x|
  {
    hide Identifier, IdentifierLess;
    if x != [] && y != [] {
      assert Identifier(x[0]) && Identifier(y[0]);
      if x[0] == y[0] {
        assert x == [x[0]] + x[1..] && y == [y[0]] + y[1..];
        NotBelowItself(x[0]);
        PrecedenceTotal(x[1..], y[1..]);
      } else {
        IdentifierLessTotal(x[0], y[0]);
      }
    }
  }

  lemma {:induction false} EqualTagsAgree(x: seq<string>)
    ensures TagsAgree(x, x)
  {
    if x != [] {
      EqualTagsAgree(x[1..]);
    }
  }

  lemma JoinInjective(x: seq<string>, y: seq<string>)
    requires Identifiers(x) && Identifiers(y) && x != [] && y != []
    requires Join(x, ".") == Join(y, ".")
    ensures x == y
  {
    JoinedDotless(x);
    JoinedDotless(y);
    SplitJoin(x, '.');
    SplitJoin(y, '.');
  }

  /** Comparing two tags as strings gives the precedence of the standard if and only if their
      first differing identifiers are not numbers of different length that sort the other way
      round, nor a number sorting above a name, and neither ends before a dot where the other
      goes on with a hyphen. */
  lemma TagPrecedenceExactly(x: seq<string>, y: seq<string>)
    requires Identifiers(x) && Identifiers(y) && x != [] && y != []
    ensures CompareTags(Join(x, "."), Join(y, ".")) == Precedence(x, y) <==> TagsAgree(x, y)
  {
    var t1, t2 := Join(x, "."), Join(y, ".");
    LessTotal(t1, t2);
    JoinIsHeadAndTail(x);
    JoinIsHeadAndTail(y);
    assert Identifier(x[0]) && Identifier(y[0]);
    assert t1 != "" && t2 != "";
    hide Join, Less, PrecedenceLess, TagsAgree, Identifiers, TailOf;
    PrecedenceTotal(x, y);
    if x == y {
      EqualTagsAgree(x);
    } else {
      if t1 == t2 {
        JoinInjective(x, y);
      }
      PlainTagsExactly(x, y);
    }
  }

  lemma SameNumbersCompareTags(v1: string, v2: string)
    requires SameNumbers(v1, v2)
    ensures Compare(v1, v2) == CompareTags(Tag(v1), Tag(v2))
  {
    CompareMeans(v1, v2);
    Semver.TagsCompare(Tag(v1), Tag(v2));
    AlikeFlipped(v1, v2);
    LowerOneWay(v1, v2);
    LowerOneWay(v2, v1);
  }

  /** So do any two texts with equal numbers, however many. */
  lemma SameNumbersPrecedenceExactly(v1: string, v2: string, x: seq<string>, y: seq<string>)
    requires SameNumbers(v1, v2) && Identifiers(x) && Identifiers(y) && x != [] && y != []
    requires Tag(v1) == Join(x, ".") && Tag(v2) == Join(y, ".")
    ensures Compare(v1, v2) == Precedence(x, y) <==> TagsAgree(x, y)
  {
    TagPrecedenceExactly(x, y);
    SameNumbersCompareTags(v1, v2);
  }

  /** How a version with a tag falls apart. */
  lemma WithTag(numbers: string, tag: string)
    requires numbers != "" && numbers[0] != 'v' && '-' !in numbers && Trimmed(numbers + ['-'] + tag)
    ensures Clean(numbers + ['-'] + tag) == numbers && Tag(numbers + ['-'] + tag) == tag
  {
    var v := numbers + ['-'] + tag;
    TrimIsTrimmed(v);
    assert v[0] == numbers[0];
    assert NormalizeVersion(v) == v;
    IndexOfAfter(numbers, '-', tag);
    assert v[..|numbers|] == numbers && v[|numbers| + 1..] == tag;
  }

  lemma WithoutTag(numbers: string)
    requires numbers != "" && numbers[0] != 'v' && '-' !in numbers && Trimmed(numbers)
    ensures Clean(numbers) == numbers && Tag(numbers) == ""
  {
    TrimIsTrimmed(numbers);
    assert IndexOf(numbers, '-') == |numbers|;
    assert numbers[..|numbers|] == numbers;
  }

  // ---------- whole versions ----------

  /** Three numbers and a tag of any number of identifiers, none for a release. */
  datatype Version = Version(numbers: seq<string>, tag: seq<string>)

  ghost predicate WellFormed(v: Version) {
    |v.numbers| == 3 && Identifiers(v.numbers) && Identifiers(v.tag) && forall i | 0 <= i < 3 :: Numeric(v.numbers[i])
  }

  function VersionText(v: Version): string {
    Join(v.numbers, ".") + if v.tag == [] then "" else ['-'] + Join(v.tag, ".")
  }

  ghost function NumberAt(v: Version, i: nat): nat
    requires WellFormed(v) && i < 3
  {
    Value(v.numbers[i])
  }

  function Sign(a: int, b: int): int {
    if a < b then -1 else if a > b then 1 else 0
  }

  /** A release is above its prereleases, and these compare by their identifiers. */
  ghost function TagOrder(x: seq<string>, y: seq<string>): int {
    if x == [] || y == [] then Sign(if x == [] then 1 else 0, if y == [] then 1 else 0) else Precedence(x, y)
  }

  /** The precedence of the standard, from number \`i\` on. */
  ghost function VersionOrder(v: Version, w: Version, i: nat): int
    requires WellFormed(v) && WellFormed(w) && i <= 3
    decreases 3 - i
  {
    if i == 3 then TagOrder(v.tag, w.tag)
    else if NumberAt(v, i) != NumberAt(w, i) then Sign(NumberAt(v, i), NumberAt(w, i))
    else VersionOrder(v, w, i + 1)
  }

  /** What a number is read as: beyond 64 bits all are the same. */
  function Saturated(n: nat): nat {
    if n > MAX_INT64 then MAX_INT64 else n
  }

  /** The comparison from number \`i\` on with saturated numbers and plain tags. */
  ghost function PlainOrder(v: Version, w: Version, i: nat): int
    requires WellFormed(v) && WellFormed(w) && i <= 3
    decreases 3 - i
  {
    if i == 3 then CompareTags(Join(v.tag, "."), Join(w.tag, "."))
    else if Saturated(NumberAt(v, i)) != Saturated(NumberAt(w, i))
    then Sign(Saturated(NumberAt(v, i)), Saturated(NumberAt(w, i)))
    else PlainOrder(v, w, i + 1)
  }

  /** With equal numbers a tag must be missing or the tags must agree. The first two numbers that
      differ must differ within 64 bits, or what comes after them must happen to compare as they do. */
  ghost predicate VersionsAgree(v: Version, w: Version, i: nat)
    requires WellFormed(v) && WellFormed(w) && i <= 3
    decreases 3 - i
  {
    if i == 3 then v.tag == [] || w.tag == [] || TagsAgree(v.tag, w.tag)
    else if NumberAt(v, i) == NumberAt(w, i) then VersionsAgree(v, w, i + 1)
    else
      || Saturated(NumberAt(v, i)) != Saturated(NumberAt(w, i))
      || PlainOrder(v, w, i + 1) == Sign(NumberAt(v, i), NumberAt(w, i))
  }

  lemma TagsAgreeExactly(x: seq<string>, y: seq<string>)
    requires Identifiers(x) && Identifiers(y)
    ensures CompareTags(Join(x, "."), Join(y, ".")) == TagOrder(x, y) <==> x == [] || y == [] || TagsAgree(x, y)
  {
    if x != [] {
      JoinIsHeadAndTail(x);
      assert Identifier(x[0]);
    }
    if y != [] {
      JoinIsHeadAndTail(y);
      assert Identifier(y[0]);
    }
    hide Identifiers, Precedence, TagsAgree, TailOf, Join;
    if x != [] && y != [] {
      TagPrecedenceExactly(x, y);
    } else {
      NothingJoined();
    }
  }

  lemma NothingJoined()
    ensures Join([], ".") == "" && !Less("", "")
  {
  }

  lemma {:induction false} OrdersAgreeExactly(v: Version, w: Version, i: nat)
    requires WellFormed(v) && WellFormed(w) && i <= 3
    ensures PlainOrder(v, w, i) == VersionOrder(v, w, i) <==> VersionsAgree(v, w, i)
    decreases 3 - i
  {
    hide CompareTags, TagOrder, TagsAgree, Join, Value, Identifiers, Numeric;
    if i == 3 {
      TagsAgreeExactly(v.tag, w.tag);
    } else {
      OrdersAgreeExactly(v, w, i + 1);
    }
  }

  // ---------- what is read from a version's text ----------

  lemma {:induction false} DigitsAreValue(s: string, n: nat)
    requires forall i | 0 <= i < |s| :: IsDigit(s[i])
    requires n <= MAX_UINT64
    ensures var total := n * PowerOfTen(|s|) + Value(s);
            Digits(s, n) == if total <= MAX_UINT64 then Exact(total) else Range(MAX_UINT64)
    decreases |s|
  {
    if s != "" {
      var rest, weight := s[1..], PowerOfTen(|s| - 1);
      var next := n * 10 + DigitValue(s[0]);
      PowerGrows(0, |rest|);
      NextDigit(n, DigitValue(s[0]), weight);
      if next <= MAX_UINT64 {
        DigitsAreValue(rest, next);
      }
    }
  }

  lemma NextDigit(n: nat, d: nat, weight: nat)
    requires weight >= 1
    ensures n * (10 * weight) + d * weight == (n * 10 + d) * weight >= n * 10 + d
  {
    assert (n * 10 + d) * weight >= n * 10 + d;
  }

  lemma NumberIsRead(s: string)
    requires Numeric(s)
    ensures AtoiOrZero(s) == Saturated(Value(s))
  {
    DigitsAreValue(s, 0);
    assert IsDigit(s[0]);
    hide Value, PowerOfTen;
  }

  lemma {:induction false} JoinMembers(x: seq<string>, c: char)
    requires c in Join(x, ".") && c != '.'
    ensures exists i :: 0 <= i < |x| && c in x[i]
    decreases |x|
  {
    if |x| == 1 {
      assert c in x[0];
    } else if c !in x[0] {
      JoinMembers(x[1..], c);
      var i :| 0 <= i < |x[1..]| && c in x[1..][i];
      assert c in x[i + 1];
    }
  }

  lemma JoinedChars(x: seq<string>)
    requires Identifiers(x)
    ensures forall c | c in Join(x, ".") && c != '.' :: IdentifierChar(c)
    ensures (forall i | 0 <= i < |x| :: Numeric(x[i])) ==> forall c | c in Join(x, ".") && c != '.' :: IsDigit(c)
  {
    forall c | c in Join(x, ".") && c != '.'
      ensures IdentifierChar(c)
      ensures (forall i | 0 <= i < |x| :: Numeric(x[i])) ==> IsDigit(c)
    {
      JoinMembers(x, c);
      var i :| 0 <= i < |x| && c in x[i];
      assert Identifier(x[i]);
    }
  }

  lemma TextFallsApart(v: Version)
    requires WellFormed(v)
    ensures Clean(VersionText(v)) == Join(v.numbers, ".") && Tag(VersionText(v)) == Join(v.tag, ".")
  {
    var numbers, tag := Join(v.numbers, "."), Join(v.tag, ".");
    JoinedChars(v.numbers);
    JoinedChars(v.tag);
    JoinIsHeadAndTail(v.numbers);
    assert Numeric(v.numbers[0]) && IsDigit(numbers[0]);
    assert numbers[|numbers| - 1] in numbers;
    if v.tag == [] {
      assert numbers + "" == numbers;
      WithoutTag(numbers);
    } else {
      JoinIsHeadAndTail(v.tag);
      assert Identifier(v.tag[0]) && tag != "";
      assert tag[|tag| - 1] in tag;
      assert numbers + (['-'] + tag) == numbers + ['-'] + tag;
      WithTag(numbers, tag);
    }
  }

  lemma PartsAreNumbers(v: Version)
    requires WellFormed(v)
    ensures |Parts(VersionText(v))| == 3
    ensures forall i: nat | i < 3 :: Part(VersionText(v), i) == Saturated(NumberAt(v, i))
  {
    TextFallsApart(v);
    JoinedDotless(v.numbers);
    SplitJoin(v.numbers, '.');
    assert Parts(VersionText(v)) == v.numbers;
    forall i: nat | i < 3 ensures Part(VersionText(v), i) == Saturated(NumberAt(v, i)) {
      NumberIsRead(v.numbers[i]);
    }
  }

  lemma JoinedDotless(x: seq<string>)
    requires Identifiers(x)
    ensures forall p | p in x :: '.' !in p
  {
    assert !IdentifierChar('.');
    forall p | p in x ensures '.' !in p {
      assert Identifier(p);
    }
  }

  lemma {:induction false} ComparesPlainly(v: Version, w: Version, i: nat)
    requires WellFormed(v) && WellFormed(w) && i <= 3
    ensures var c := CompareParts(VersionText(v), VersionText(w), i, 3);
            PlainOrder(v, w, i) == if c != 0 then c else CompareTags(Join(v.tag, "."), Join(w.tag, "."))
    decreases 3 - i
  {
    PartsAreNumbers(v);
    PartsAreNumbers(w);
    hide Part, VersionText, Join, CompareTags, NumberAt, Saturated;
    if i < 3 {
      ComparesPlainly(v, w, i + 1);
    }
  }

  /** For all well-formed versions: comparing their texts gives the precedence of the standard if
      and only if their numbers differ within 64 bits or not at all, and in the latter case a tag
      is missing or the tags agree; past 64 bits only by coincidence. */
  lemma VersionPrecedenceExactly(v: Version, w: Version)
    requires WellFormed(v) && WellFormed(w)
    ensures Compare(VersionText(v), VersionText(w)) == VersionOrder(v, w, 0) <==> VersionsAgree(v, w, 0)
  {
    PartsAreNumbers(v);
    PartsAreNumbers(w);
    TextFallsApart(v);
    TextFallsApart(w);
    hide VersionText, Join, CompareTags, CompareParts, VersionOrder, PlainOrder, VersionsAgree, WellFormed;
    ComparesPlainly(v, w, 0);
    OrdersAgreeExactly(v, w, 0);
  }

  lemma TwentyDigits(s: string)
    requires Identifier(s) && Numeric(s) && |s| == 20
    ensures Value(s) > MAX_INT64
  {
    PowerGrows(0, 19);
    assert PowerOfTen(4) == 10000 && PowerOfTen(8) == 100000000 && PowerOfTen(12) == 1000000000000;
    assert PowerOfTen(16) == 10000000000000000 && PowerOfTen(19) == 10000000000000000000;
    Weighed(0, DigitValue(s[0]), PowerOfTen(19));
  }

  /** Past 64 bits different numbers are read as equal. */
  lemma BothSaturated(v: Version, w: Version)
    requires WellFormed(v) && WellFormed(w) && v.tag == [] && w.tag == [] && v.numbers[1..] == w.numbers[1..]
    requires NumberAt(v, 0) > MAX_INT64 && NumberAt(w, 0) > MAX_INT64 && NumberAt(v, 0) != NumberAt(w, 0)
    ensures Compare(VersionText(v), VersionText(w)) == 0
    ensures VersionOrder(v, w, 0) == Sign(NumberAt(v, 0), NumberAt(w, 0))
  {
    PartsAreNumbers(v);
    PartsAreNumbers(w);
    TextFallsApart(v);
    TextFallsApart(w);
    ComparesPlainly(v, w, 0);
    NothingJoined();
    assert v.numbers[1] == v.numbers[1..][0] == w.numbers[1] && v.numbers[2] == v.numbers[1..][1] == w.numbers[2];
    hide VersionText, Join, CompareParts, Value, Identifiers, Numeric;
    assert PlainOrder(v, w, 3) == 0;
    assert PlainOrder(v, w, 2) == 0;
    assert PlainOrder(v, w, 1) == 0;
  }

  /** Any two different numbers of twenty digits, as major versions: the one with the smaller
      number is below by the standard, and the two compare as equal. */
  lemma SaturatedVersionsEqual(m: string, n: string)
    requires Identifier(m) && Identifier(n) && Numeric(m) && Numeric(n) && |m| == |n| == 20 && Less(m, n)
    ensures var v, w := Version([m, "0", "0"], []), Version([n, "0", "0"], []);
            && WellFormed(v) && WellFormed(w)
            && Compare(VersionText(v), VersionText(w)) == 0 && VersionOrder(v, w, 0) == -1
  {
    var v, w := Version([m, "0", "0"], []), Version([n, "0", "0"], []);
    assert Identifier("0") && Numeric("0");
    SameLengthOrder(m, n);
    TwentyDigits(m);
    TwentyDigits(n);
    hide Value, Identifier, Numeric, Less, VersionText, VersionOrder;
    assert v.numbers[1..] == ["0", "0"] && w.numbers[1..] == ["0", "0"];
    BothSaturated(v, w);
  }

  lemma NineAndTen()
    ensures CompareTags("rc.9", "rc.10") == 1
    ensures Precedence(["rc", "9"], ["rc", "10"]) == -1
    ensures Identifiers(["rc", "9"]) && Identifiers(["rc", "10"]) && !TagsAgree(["rc", "9"], ["rc", "10"])
  {
    assert !IsDigit("rc"[0]) && Numeric("9") && Numeric("10");
    assert Value("9") == 9 by { assert "9"[1..] == ""; }
    assert Value("10") == 10 by { assert "10"[1..] == "0" && "0"[1..] == "" && PowerOfTen(1) == 10; }
    assert ["rc", "9"][1..] == ["9"] && ["rc", "10"][1..] == ["10"];
    assert IdentifierLess("9", "10") && !IdentifierLess("10", "9") && !IdentifierLess("rc", "rc");
    assert !Less("9", "10") && Less("10", "9");
    assert "rc.9" == "rc." + "9" && "rc.10" == "rc." + "10";
    LessCommon("rc.", "9", "10");
    LessCommon("rc.", "10", "9");
  }

  /** The ninth release candidate counts as newer than the tenth. */
  lemma NinthAboveTenth()
    ensures Compare("1.0.0-rc.9", "1.0.0-rc.10") == 1 && Precedence(["rc", "9"], ["rc", "10"]) == -1
    ensures !TagsAgree(["rc", "9"], ["rc", "10"])
  {
    var v1, v2 := "1.0.0" + ['-'] + "rc.9", "1.0.0" + ['-'] + "rc.10";
    assert v1 == "1.0.0-rc.9" && v2 == "1.0.0-rc.10";
    WithTag("1.0.0", "rc.9");
    WithTag("1.0.0", "rc.10");
    NineAndTen();
    hide Less, Split, AtoiOrZero, Clean, Tag, CompareTags, Identifiers, TagsAgree, Precedence, Trim;
    assert SameNumbers(v1, v2);
    SameNumbersCompareTags(v1, v2);
  }
}
