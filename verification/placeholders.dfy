/** Pseudo-localisation and the placeholder comparison of internal/doclifecycle/lifecycle.go, on
    the bytes of Go strings, valid UTF-8 or not. */
module Placeholders {
  import opened Text
  import opened Sorting

  newtype Byte = x: int | 0 <= x < 0x100

  type Bytes = seq<Byte>

  // ---------- characters in a string of bytes ----------

  predicate Continues(b: Byte) {
    0x80 <= b <= 0xBF
  }

  /** The second byte a longer encoding may have after its first. */
  predicate Seconds(a: Byte, b: Byte) {
    && (if a == 0xE0 then 0xA0 else if a == 0xF0 then 0x90 else 0x80) <= b
    && b <= (if a == 0xED then 0x9F else if a == 0xF4 then 0x8F else 0xBF)
  }

  /** The length of the character a string starts with, or 0 if it starts with an invalid byte. */
  function CharLength(s: Bytes): (n: nat)
    ensures n <= |s|
  {
    if s == [] then 0
    else if s[0] < 0x80 then 1
    else if |s| >= 2 && 0xC2 <= s[0] <= 0xDF && Continues(s[1]) then 2
    else if |s| >= 3 && 0xE0 <= s[0] <= 0xEF && Seconds(s[0], s[1]) && Continues(s[2]) then 3
    else if |s| >= 4 && 0xF0 <= s[0] <= 0xF4 && Seconds(s[0], s[1]) && Continues(s[2]) && Continues(s[3]) then 4
    else 0
  }

  /** How many bytes ranging over a string takes at a time. */
  function Taken(s: Bytes): (n: nat)
    requires s != []
    ensures 1 <= n <= |s|
  {
    if CharLength(s) == 0 then 1 else CharLength(s)
  }

  predicate ValidText(s: Bytes)
    decreases |s|
  {
    s == [] || (CharLength(s) > 0 && ValidText(s[CharLength(s)..]))
  }

  const REPLACEMENT: Bytes := [0xEF, 0xBF, 0xBD]

  /** Writing the character taken: the same bytes, or the replacement for an invalid one. */
  function Written(s: Bytes): Bytes
    requires s != []
  {
    if CharLength(s) == 0 then REPLACEMENT else s[..CharLength(s)]
  }

  // ---------- pseudo-localisation ----------

  const LOWER: seq<Bytes> := [
    [0xC3, 0xA0], [0xC6, 0x80], [0xC3, 0xA7], [0xC3, 0xB0], [0xC3, 0xA9], [0xC6, 0x92],
    [0xC4, 0x9D], [0xC4, 0xA5], [0xC3, 0xAE], [0xC4, 0xB5], [0xC4, 0xB7], [0xC4, 0xBC],
    [0xC9, 0xB1], [0xC3, 0xB1], [0xC3, 0xB4], [0xC3, 0xBE], [0x20, 0x71], [0xC5, 0x95],
    [0xC5, 0x9F], [0xC5, 0xA3], [0xC3, 0xBB], [0xE1, 0xB9, 0xBD], [0xC5, 0xB5], [0xE1, 0xBA, 0x8B],
    [0xC5, 0xB7], [0xC5, 0xBE]]

  const OPEN: Byte := 0x7B
  const CLOSE: Byte := 0x7D
  const SPACE: Byte := 0x20
  const LEFT_MARK: Bytes := [0xE2, 0x9F, 0xA6]
  const RIGHT_MARK: Bytes := [0xE2, 0x9F, 0xA7]

  predicate IsLower(b: Byte) {
    0x61 <= b <= 0x7A
  }

  predicate IsUpper(b: Byte) {
    0x41 <= b <= 0x5A
  }

  /** The capital form upper-cases the first byte of the lower form alone: an ASCII byte stays
      a character, the first byte of a longer encoding becomes the replacement character and
      leaves the other bytes behind. */
  function Capital(lower: Bytes): Bytes
    requires lower != []
  {
    (if IsLower(lower[0]) then [lower[0] - 0x20] else if lower[0] < 0x80 then [lower[0]] else REPLACEMENT) + lower[1..]
  }

  /** What stands for the character taken outside placeholders. */
  function Expand(s: Bytes): Bytes
    requires s != []
  {
    if IsLower(s[0]) then LOWER[s[0] as int - 0x61]
    else if IsUpper(s[0]) then Capital(LOWER[s[0] as int - 0x41])
    else if s[0] == SPACE then [SPACE, SPACE]
    else Written(s)
  }

  function Localized(s: Bytes, inPlaceholder: bool): Bytes
    decreases |s|
  {
    if s == [] then []
    else if s[0] == OPEN then [OPEN] + Localized(s[1..], true)
    else if s[0] == CLOSE then [CLOSE] + Localized(s[1..], false)
    else (if inPlaceholder then Written(s) else Expand(s)) + Localized(s[Taken(s)..], inPlaceholder)
  }

  function Marked(body: Bytes): Bytes {
    LEFT_MARK + body + RIGHT_MARK
  }

  lemma LocalizedNext(done: Bytes, text: Bytes, i: nat, inPlaceholder: bool)
    requires i < |text|
    ensures done + Localized(text[i..], inPlaceholder) ==
            if text[i] == OPEN then done + [OPEN] + Localized(text[i + 1..], true)
            else if text[i] == CLOSE then done + [CLOSE] + Localized(text[i + 1..], false)
            else done + (if inPlaceholder then Written(text[i..]) else Expand(text[i..])) +
                 Localized(text[i + Taken(text[i..])..], inPlaceholder)
    ensures text[i] == OPEN || text[i] == CLOSE ==> Taken(text[i..]) == 1
  {
    hide Expand, Written;
    var s, n := text[i..], Taken(text[i..]);
    assert s[1..] == text[i + 1..] && s[n..] == text[i + n..];
    var head := if inPlaceholder then Written(s) else Expand(s);
    Assoc(done, [OPEN], Localized(s[1..], true));
    Assoc(done, [CLOSE], Localized(s[1..], false));
    Assoc(done, head, Localized(s[n..], inPlaceholder));
  }

  method PseudoLocalize(text: Bytes) returns (r: Bytes)
    ensures r == Marked(Localized(text, false))
  {
    assert forall inside :: Localized([], inside) == [];
    hide Localized, Expand, Written;
    var b: Bytes := [];
    var inPlaceholder := false;
    var i := 0;
    assert text[0..] == text && [] + Localized(text, false) == Localized(text, false);
    while i < |text|
      invariant 0 <= i <= |text|
      invariant b + Localized(text[i..], inPlaceholder) == Localized(text, false)
    {
      LocalizedNext(b, text, i, inPlaceholder);
      var rest := text[i..];
      if text[i] == OPEN {
        inPlaceholder := true;
        b := b + [OPEN];
      } else if text[i] == CLOSE {
        inPlaceholder := false;
        b := b + [CLOSE];
      } else if inPlaceholder {
        b := b + Written(rest);
      } else {
        b := b + Expand(rest);
      }
      i := i + Taken(rest);
    }
    assert text[|text|..] == [] && b + [] == b;
    r := Marked(b);
  }

  // ---------- placeholders ----------

  /** The position of the first byte equal to `x`, or the length. */
  function Find(s: Bytes, x: Byte): (k: nat)
    ensures k <= |s| && (k < |s| ==> s[k] == x) && x !in s[..k]
  {
    if s == [] || s[0] == x then 0 else 1 + Find(s[1..], x)
  }

  /** The placeholders of a text in their order; one that is never closed runs to the end. */
  function Names(s: Bytes): seq<Bytes>
    decreases |s|
  {
    if s == [] then []
    else if s[0] != OPEN then Names(s[1..])
    else
      var end := Find(s, CLOSE);
      if end == |s| then [s] else [s[..end + 1]] + Names(s[end + 1..])
  }

  /** The order of Go's `<` on strings. */
  predicate NameLess(a: Bytes, b: Bytes) {
    b != [] && (a == [] || a[0] < b[0] || (a[0] == b[0] && NameLess(a[1..], b[1..])))
  }

  lemma {:induction false} NameLessTotal(a: Bytes, b: Bytes)
    ensures a == b || NameLess(a, b) || NameLess(b, a)
    ensures !(NameLess(a, b) && NameLess(b, a))
  {
    if a != [] && b != [] && a[0] == b[0] {
      NameLessTotal(a[1..], b[1..]);
      assert a == [a[0]] + a[1..] && b == [b[0]] + b[1..];
    }
  }

  lemma {:induction false} NameLessTransitive(a: Bytes, b: Bytes, c: Bytes)
    requires NameLess(a, b) && NameLess(b, c)
    ensures NameLess(a, c)
  {
    if a != [] && a[0] == b[0] && b[0] == c[0] {
      NameLessTransitive(a[1..], b[1..], c[1..]);
    }
  }

  lemma NameLessIsTotalOrder()
    ensures Total(NameLess)
  {
    hide NameLess;
    forall a, b ensures NameLess(a, b) ==> !NameLess(b, a) ensures !NameLess(a, b) && !NameLess(b, a) ==> a == b {
      NameLessTotal(a, b);
    }
    forall a, b, c | !NameLess(b, a) && !NameLess(c, b) ensures !NameLess(c, a) {
      NameLessTotal(a, b);
      NameLessTotal(b, c);
      NameLessTotal(a, c);
      if NameLess(a, b) && NameLess(b, c) {
        NameLessTransitive(a, b, c);
      }
    }
  }

  function SortedNames(s: Bytes): seq<Bytes> {
    SortBy(NameLess, Names(s))
  }

  lemma NamesNext(done: seq<Bytes>, s: Bytes, i: nat)
    requires i < |s|
    ensures var end := Find(s[i..], CLOSE);
            done + Names(s[i..]) ==
            if s[i] != OPEN then done + Names(s[i + 1..])
            else if end == |s[i..]| then done + [s[i..]]
            else done + [s[i..i + end + 1]] + Names(s[i + end + 1..])
  {
    assert s[i..][1..] == s[i + 1..];
    var end := Find(s[i..], CLOSE);
    if end < |s[i..]| {
      assert s[i..][..end + 1] == s[i..i + end + 1] && s[i..][end + 1..] == s[i + end + 1..];
      Assoc(done, [s[i..i + end + 1]], Names(s[i + end + 1..]));
    }
  }

  method PlaceholderNames(text: Bytes) returns (names: seq<Bytes>)
    ensures names == SortedNames(text)
  {
    assert Names([]) == [];
    hide Names;
    names := [];
    var i := 0;
    assert text[0..] == text && [] + Names(text) == Names(text);
    while i < |text|
      invariant 0 <= i <= |text|
      invariant names + Names(text[i..]) == Names(text)
    {
      NamesNext(names, text, i);
      if text[i] != OPEN {
        i := i + 1;
        continue;
      }
      var end := Find(text[i..], CLOSE);
      if end == |text[i..]| {
        names := names + [text[i..]];
        assert names == Names(text);
        return SortBy(NameLess, names);
      }
      names := names + [text[i..i + end + 1]];
      i := i + end + 1;
    }
    assert text[i..] == [] && names + [] == names;
    names := SortBy(NameLess, names);
  }

  method PlaceholdersBalanced(source: Bytes, target: Bytes) returns (balanced: bool)
    ensures balanced <==> SortedNames(source) == SortedNames(target)
  {
    var sourceNames := PlaceholderNames(source);
    var targetNames := PlaceholderNames(target);
    if |sourceNames| != |targetNames| {
      return false;
    }
    for i := 0 to |sourceNames|
      invariant sourceNames[..i] == targetNames[..i]
    {
      if targetNames[i] != sourceNames[i] {
        return false;
      }
      assert sourceNames[..i + 1] == sourceNames[..i] + [sourceNames[i]];
      assert targetNames[..i + 1] == targetNames[..i] + [targetNames[i]];
    }
    assert sourceNames[..|sourceNames|] == sourceNames && targetNames[..|targetNames|] == targetNames;
    return true;
  }

  /** Balance is equality of the placeholders as multisets. */
  lemma BalancedExactly(source: Bytes, target: Bytes)
    ensures SortedNames(source) == SortedNames(target) <==> multiset(Names(source)) == multiset(Names(target))
  {
    NameLessIsTotalOrder();
    SortedAlikeExactly(NameLess, Names(source), Names(target));
  }

  // ---------- cutting a string at a brace ----------

  lemma CharLengthOf(s: Bytes, t: Bytes)
    requires CharLength(s) > 0
    ensures CharLength(s[..CharLength(s)] + t) == CharLength(s)
  {
  }

  /** Whatever stands before an ASCII byte is taken the same way when the string ends behind it. */
  lemma CharLengthCut(s: Bytes, k: nat, m: nat)
    requires 0 < k < m <= |s| && s[k] < 0x80
    ensures CharLength(s[..m]) == CharLength(s) && Taken(s[..m]) == Taken(s) <= k
    ensures Written(s[..m]) == Written(s)
  {
  }

  /** Only an ASCII byte is taken for itself. */
  lemma TakenHasNo(s: Bytes, x: Byte)
    requires s != [] && s[0] != x && x < 0x80
    ensures x !in s[..Taken(s)] && x !in Written(s)
  {
  }

  /** What a placeholder becomes: its invalid bytes are replaced. */
  function Repaired(s: Bytes): Bytes
    decreases |s|
  {
    if s == [] then [] else Written(s) + Repaired(s[Taken(s)..])
  }

  lemma WrittenIsValid(s: Bytes, t: Bytes)
    requires s != []
    ensures ValidText(Written(s) + t) <==> ValidText(t)
  {
    var w := Written(s);
    assert CharLength(w + t) == |w| by {
      if CharLength(s) > 0 {
        CharLengthOf(s, t);
      }
    }
    assert (w + t)[|w|..] == t;
  }

  lemma {:induction false} RepairedIsValid(s: Bytes)
    ensures ValidText(Repaired(s))
    ensures ValidText(s) ==> Repaired(s) == s
    decreases |s|
  {
    if s != [] {
      var rest := s[Taken(s)..];
      RepairedIsValid(rest);
      WrittenIsValid(s, Repaired(rest));
      if ValidText(s) {
        assert s == s[..CharLength(s)] + s[CharLength(s)..];
      }
    }
  }

  lemma ValidStartsWithChar(s: Bytes)
    requires ValidText(s) && s != []
    ensures s == Written(s) + s[Taken(s)..] && ValidText(s[Taken(s)..])
  {
  }

  lemma {:induction false} ValidAppend(a: Bytes, b: Bytes)
    requires ValidText(a) && ValidText(b)
    ensures ValidText(a + b)
    decreases |a|
  {
    if a == [] {
      assert a + b == b;
    } else {
      hide *;
      var rest := a[Taken(a)..];
      ValidStartsWithChar(a);
      ValidAppend(rest, b);
      WrittenIsValid(a, rest + b);
      Assoc(Written(a), rest, b);
    }
  }

  /** Braces stay where they are: none appears, and the last byte of a closed placeholder stays
      the only closing one. */
  lemma {:induction false} RepairedBraces(s: Bytes)
    ensures CLOSE !in s ==> CLOSE !in Repaired(s)
    ensures s != [] && s[0] == OPEN ==> Repaired(s) != [] && Repaired(s)[0] == OPEN
    decreases |s|
  {
    if s != [] {
      var rest := s[Taken(s)..];
      RepairedBraces(rest);
      if s[0] != CLOSE {
        TakenHasNo(s, CLOSE);
      }
    }
  }

  // ---------- pseudo-localisation keeps placeholders ----------

  /** Every opening brace has a closing one after it. */
  ghost predicate EachClosed(text: Bytes) {
    forall i | 0 <= i < |text| && text[i] == OPEN :: CLOSE in text[i..]
  }

  lemma {:induction false} NamesSkip(a: Bytes, b: Bytes)
    requires OPEN !in a
    ensures Names(a + b) == Names(b)
    decreases |a|
  {
    if a == [] {
      assert a + b == b;
    } else {
      assert (a + b)[1..] == a[1..] + b;
      NamesSkip(a[1..], b);
    }
  }

  lemma {:induction false} FindIs(s: Bytes, x: Byte, k: nat)
    requires k <= |s| && x !in s[..k] && (k < |s| ==> s[k] == x)
    ensures Find(s, x) == k
  {
    if k > 0 {
      assert s[..k][0] == s[0] && s[..k][1..] == s[1..][..k - 1];
      FindIs(s[1..], x, k - 1);
    }
  }

  /** A closed placeholder is the first name of what starts with it. */
  lemma NamesFirst(p: Bytes, rest: Bytes)
    requires EndsClosed(p) && p[0] == OPEN
    ensures Names(p + rest) == [p] + Names(rest)
  {
    var s := p + rest;
    assert s[..|p| - 1] == p[..|p| - 1];
    FindIs(s, CLOSE, |p| - 1);
    assert s[..|p|] == p && s[|p|..] == rest;
  }

  /** One step inside a placeholder. */
  lemma InsideStep(text: Bytes)
    requires text != [] && text[0] != CLOSE
    ensures Localized(text, true) == Written(text) + Localized(text[Taken(text)..], true)
  {
    if text[0] == OPEN {
      assert text[..1] == [OPEN];
    }
  }

  lemma CutSlices(text: Bytes, k: nat, n: nat)
    requires n <= k < |text| && text[k] == CLOSE && CLOSE !in text[..k]
    ensures var rest := text[n..];
            && rest[k - n] == CLOSE && CLOSE !in rest[..k - n]
            && rest[..k - n + 1] == text[..k + 1][n..] && rest[k - n + 1..] == text[k + 1..]
  {
    assert text[n..][..k - n] == text[..k][n..];
  }

  lemma RepairedStep(text: Bytes, k: nat)
    requires 0 < k < |text| && text[k] == CLOSE
    ensures Taken(text) <= k
    ensures Repaired(text[..k + 1]) == Written(text) + Repaired(text[..k + 1][Taken(text)..])
  {
    CharLengthCut(text, k, k + 1);
  }

  lemma ClosesAtOnce(text: Bytes)
    requires text != [] && text[0] == CLOSE
    ensures Repaired(text[..1]) == [CLOSE] && Localized(text, true) == [CLOSE] + Localized(text[1..], false)
  {
    var p := text[..1];
    assert p == [CLOSE] && Written(p) == [CLOSE] && Repaired(p[1..]) == [];
    assert Repaired(p) == [CLOSE] + [];
  }

  /** From an opening brace up to the closing one the text is copied, invalid bytes replaced. */
  lemma {:induction false} CopiedInside(text: Bytes, k: nat)
    requires k < |text| && text[k] == CLOSE && CLOSE !in text[..k]
    ensures Localized(text, true) == Repaired(text[..k + 1]) + Localized(text[k + 1..], false)
    decreases |text|
  {
    if k == 0 {
      ClosesAtOnce(text);
    } else {
      assert text[0] == text[..k][0];
      InsideStep(text);
      RepairedStep(text, k);
      var n := Taken(text);
      hide *;
      CutSlices(text, k, n);
      CopiedInside(text[n..], k - n);
      Assoc(Written(text), Repaired(text[..k + 1][n..]), Localized(text[k + 1..], false));
    }
  }

  lemma {:induction false} CopiedToTheEnd(text: Bytes)
    requires CLOSE !in text
    ensures Localized(text, true) == Repaired(text)
    decreases |text|
  {
    if text != [] {
      InsideStep(text);
      CopiedToTheEnd(text[Taken(text)..]);
    }
  }

  ghost predicate EndsClosed(p: Bytes) {
    p != [] && p[|p| - 1] == CLOSE && CLOSE !in p[..|p| - 1]
  }

  lemma EndsClosedAppend(w: Bytes, q: Bytes)
    requires CLOSE !in w && EndsClosed(q)
    ensures EndsClosed(w + q)
  {
    assert (w + q)[..|w + q| - 1] == w + q[..|q| - 1];
  }

  lemma EndsClosedCut(p: Bytes, n: nat)
    requires EndsClosed(p) && n < |p|
    ensures EndsClosed(p[n..])
  {
    assert p[n..][..|p[n..]| - 1] == p[..|p| - 1][n..];
  }

  lemma {:induction false} RepairedEnds(p: Bytes)
    requires EndsClosed(p)
    ensures EndsClosed(Repaired(p))
    decreases |p|
  {
    if |p| == 1 {
      assert p == [CLOSE];
      ClosesAtOnce(p);
      assert p[..1] == p;
    } else {
      assert p[0] == p[..|p| - 1][0] && p[..|p|] == p;
      RepairedStep(p, |p| - 1);
      TakenHasNo(p, CLOSE);
      hide *;
      var n := Taken(p);
      EndsClosedCut(p, n);
      RepairedEnds(p[n..]);
      EndsClosedAppend(Written(p), Repaired(p[n..]));
    }
  }

  // ---------- the names of a localised text ----------

  ghost function RepairedNames(names: seq<Bytes>): seq<Bytes> {
    seq(|names|, i requires 0 <= i < |names| => Repaired(names[i]))
  }

  /** The names with some text behind: the same as before, except that a placeholder never
      closed takes that text in. */
  ghost function Extended(names: seq<Bytes>, closed: bool, tail: Bytes): seq<Bytes> {
    if closed || names == [] then names
    else names[..|names| - 1] + [names[|names| - 1] + tail]
  }

  lemma ExtendedCons(p: Bytes, names: seq<Bytes>, closed: bool, tail: Bytes)
    requires closed || names != []
    ensures Extended(RepairedNames([p] + names), closed, tail) ==
            [Repaired(p)] + Extended(RepairedNames(names), closed, tail)
  {
    hide Repaired;
    assert RepairedNames([p] + names) == [Repaired(p)] + RepairedNames(names);
    if !closed {
      var rest := RepairedNames(names);
      assert ([Repaired(p)] + rest)[..|rest|] == [Repaired(p)] + rest[..|rest| - 1];
    }
  }

  lemma EachClosedSuffix(text: Bytes, k: nat)
    requires k <= |text| && forall i | 0 <= i < k && text[i] == OPEN :: CLOSE in text[i..]
    ensures EachClosed(text) <==> EachClosed(text[k..])
  {
    if EachClosed(text[k..]) {
      forall i | 0 <= i < |text| && text[i] == OPEN ensures CLOSE in text[i..] {
        if i >= k {
          assert text[k..][i - k] == OPEN && text[k..][i - k..] == text[i..];
        }
      }
    }
    if EachClosed(text) {
      forall i | 0 <= i < |text[k..]| && text[k..][i] == OPEN ensures CLOSE in text[k..][i..] {
        assert text[k + i] == OPEN && text[k..][i..] == text[k + i..];
      }
    }
  }

  lemma TableHasNoBraces()
    ensures forall i | 0 <= i < 26 ::
              LOWER[i] != [] && OPEN !in LOWER[i] && OPEN !in Capital(LOWER[i])
  {
  }

  lemma StaysOutside(text: Bytes) returns (head: Bytes)
    requires text != [] && text[0] != OPEN
    ensures OPEN !in head && OPEN !in text[..Taken(text)]
    ensures Localized(text, false) == head + Localized(text[Taken(text)..], false)
  {
    head := if text[0] == CLOSE then [CLOSE] else Expand(text);
    TableHasNoBraces();
    TakenHasNo(text, OPEN);
    hide Capital;
  }

  lemma OutsideStep(text: Bytes, tail: Bytes)
    requires text != [] && text[0] != OPEN
    ensures var rest := text[Taken(text)..];
            && Names(Localized(text, false) + tail) == Names(Localized(rest, false) + tail)
            && Names(text) == Names(rest) && (EachClosed(text) <==> EachClosed(rest))
  {
    var head := StaysOutside(text);
    var n := Taken(text);
    forall i | 0 <= i < n ensures text[i] != OPEN {
      assert text[i] in text[..n];
    }
    hide Localized, Names, Taken;
    Assoc(head, Localized(text[n..], false), tail);
    NamesSkip(head, Localized(text[n..], false) + tail);
    assert text == text[..n] + text[n..];
    NamesSkip(text[..n], text[n..]);
    EachClosedSuffix(text, n);
  }

  lemma OpensInside(text: Bytes)
    requires text != [] && text[0] == OPEN
    ensures Localized(text, false) == Localized(text, true)
  {
  }

  lemma PlaceholderAt(text: Bytes, k: nat)
    requires text != [] && text[0] == OPEN && k == Find(text, CLOSE) < |text|
    ensures var p := text[..k + 1];
            && EndsClosed(p) && p[0] == OPEN
            && text == p + text[k + 1..] && (EachClosed(text) <==> EachClosed(text[k + 1..]))
  {
    assert text[..k + 1][..k] == text[..k];
    forall i | 0 <= i < k + 1 && text[i] == OPEN ensures CLOSE in text[i..] {
      assert text[i..][k - i] == CLOSE;
    }
    EachClosedSuffix(text, k + 1);
  }

  lemma ClosedStep(text: Bytes, tail: Bytes, k: nat)
    requires text != [] && text[0] == OPEN && k == Find(text, CLOSE) < |text|
    ensures var p, rest := text[..k + 1], text[k + 1..];
            && Names(Localized(text, false) + tail) == [Repaired(p)] + Names(Localized(rest, false) + tail)
            && Names(text) == [p] + Names(rest) && (EachClosed(text) <==> EachClosed(rest))
  {
    var p, rest := text[..k + 1], text[k + 1..];
    OpensInside(text);
    hide *;
    CopiedInside(text, k);
    PlaceholderAt(text, k);
    RepairedEnds(p);
    RepairedBraces(p);
    Assoc(Repaired(p), Localized(rest, false), tail);
    NamesFirst(Repaired(p), Localized(rest, false) + tail);
    NamesFirst(p, rest);
  }

  lemma UnclosedStep(text: Bytes, tail: Bytes)
    requires text != [] && text[0] == OPEN && CLOSE !in text && CLOSE !in tail
    ensures Names(Localized(text, false) + tail) == [Repaired(text) + tail]
    ensures Names(text) == [text] && !EachClosed(text)
  {
    OpensInside(text);
    CopiedToTheEnd(text);
    RepairedBraces(text);
    hide Localized, Repaired;
    var s := Repaired(text) + tail;
    assert s[..|s|] == s && text[..|text|] == text;
    FindIs(s, CLOSE, |s|);
    FindIs(text, CLOSE, |text|);
    assert text[0..] == text;
  }

  /** The placeholders of a localised text are the repaired ones of the text, and one never
      closed takes in what follows. */
  lemma {:induction false} LocalizedNames(text: Bytes, tail: Bytes)
    requires OPEN !in tail && CLOSE !in tail
    ensures Names(Localized(text, false) + tail) == Extended(RepairedNames(Names(text)), EachClosed(text), tail)
    ensures !EachClosed(text) ==> Names(text) != []
    decreases |text|
  {
    if text == [] {
      NamesSkip(tail, []);
      assert tail + [] == tail && [] + tail == tail && RepairedNames([]) == [];
    } else if text[0] != OPEN {
      OutsideStep(text, tail);
      hide *;
      LocalizedNames(text[Taken(text)..], tail);
    } else {
      var k := Find(text, CLOSE);
      if k < |text| {
        ClosedStep(text, tail, k);
        hide *;
        LocalizedNames(text[k + 1..], tail);
        ExtendedCons(text[..k + 1], Names(text[k + 1..]), EachClosed(text[k + 1..]), tail);
      } else {
        assert text[..k] == text;
        UnclosedStep(text, tail);
        hide Localized, Names, Repaired;
        assert RepairedNames([text]) == [Repaired(text)];
      }
    }
  }

  // ---------- the check pseudo-localised texts pass ----------

  ghost predicate AllValid(names: seq<Bytes>) {
    forall p | p in names :: ValidText(p)
  }

  lemma ImageIsValid(names: seq<Bytes>, closed: bool)
    ensures AllValid(Extended(RepairedNames(names), closed, RIGHT_MARK))
  {
    var repaired := RepairedNames(names);
    forall i | 0 <= i < |names| ensures ValidText(repaired[i]) && ValidText(repaired[i] + RIGHT_MARK) {
      RepairedIsValid(names[i]);
      assert ValidText(RIGHT_MARK) by {
        assert CharLength(RIGHT_MARK) == 3 && RIGHT_MARK[3..] == [];
      }
      ValidAppend(repaired[i], RIGHT_MARK);
    }
    hide ValidText, RepairedNames;
  }

  lemma ValidNamesStay(names: seq<Bytes>)
    requires AllValid(names)
    ensures RepairedNames(names) == names
  {
    hide ValidText, Repaired;
    forall i | 0 <= i < |names| ensures Repaired(names[i]) == names[i] {
      assert names[i] in names;
      RepairedIsValid(names[i]);
    }
  }

  lemma LongerLastDiffers(names: seq<Bytes>, tail: Bytes)
    requires names != [] && tail != []
    ensures multiset(Extended(names, false, tail)) != multiset(names)
  {
    var init, last := names[..|names| - 1], names[|names| - 1];
    assert names == init + [last];
    assert |last + tail| > |last|;
    assert multiset(names)[last] == multiset(init)[last] + 1;
    assert multiset(init + [last + tail])[last] == multiset(init)[last];
  }

  /** For every string of bytes: pseudo-localisation passes its own placeholder check exactly if
      every opening brace is closed and no placeholder has an invalid byte, and then keeps every
      placeholder as it is. */
  lemma PseudoLocalizationExactly(text: Bytes)
    ensures SortedNames(text) == SortedNames(Marked(Localized(text, false))) <==>
            EachClosed(text) && AllValid(Names(text))
    ensures EachClosed(text) && AllValid(Names(text)) ==> Names(Marked(Localized(text, false))) == Names(text)
  {
    var names, body := Names(text), Localized(text, false);
    var image := Names(Marked(body));
    LocalizedNames(text, RIGHT_MARK);
    Assoc(LEFT_MARK, body, RIGHT_MARK);
    NamesSkip(LEFT_MARK, body + RIGHT_MARK);
    BalancedExactly(text, Marked(body));
    ImageIsValid(names, EachClosed(text));
    hide Names, Localized, SortedNames, EachClosed, RepairedNames, ValidText;
    if AllValid(names) {
      ValidNamesStay(names);
      if !EachClosed(text) {
        LongerLastDiffers(names, RIGHT_MARK);
      }
    } else {
      var p :| p in names && !ValidText(p);
      assert p in multiset(names) && p !in multiset(image);
    }
  }

  // ---------- the text expands ----------

  predicate IsLetter(b: Byte) {
    IsLower(b) || IsUpper(b)
  }

  /** The letters and spaces outside placeholders. */
  function Bare(s: Bytes, inPlaceholder: bool): nat
    decreases |s|
  {
    if s == [] then 0
    else if s[0] == OPEN then Bare(s[1..], true)
    else if s[0] == CLOSE then Bare(s[1..], false)
    else
      (if !inPlaceholder && (IsLetter(s[0]) || s[0] == SPACE) then 1 else 0) + Bare(s[Taken(s)..], inPlaceholder)
  }

  /** A letter outside placeholders becomes something longer that starts with another byte. */
  lemma LettersChange(s: Bytes)
    requires s != []
    ensures |Written(s)| >= Taken(s)
    ensures IsLetter(s[0]) ==> |Expand(s)| > Taken(s) && Expand(s)[0] != s[0]
    ensures s[0] == SPACE ==> |Expand(s)| > Taken(s)
    ensures |Expand(s)| >= Taken(s)
  {
    TableOfCharacters();
  }

  /** Every letter and space outside placeholders makes the text longer, and nothing shorter. */
  lemma {:induction false} LocalizedExpands(text: Bytes, inPlaceholder: bool)
    ensures |Localized(text, inPlaceholder)| >= |text| + Bare(text, inPlaceholder)
    decreases |text|
  {
    if text != [] {
      LettersChange(text);
      hide Expand, Written;
      if text[0] == OPEN || text[0] == CLOSE {
        LocalizedExpands(text[1..], text[0] == OPEN);
      } else {
        LocalizedExpands(text[Taken(text)..], inPlaceholder);
      }
    }
  }

  // ---------- where the output stops being text ----------

  /** Outside placeholders there is no capital letter other than Q. */
  predicate NoBareCapital(s: Bytes, inPlaceholder: bool)
    decreases |s|
  {
    s == [] ||
    if s[0] == OPEN then NoBareCapital(s[1..], true)
    else if s[0] == CLOSE then NoBareCapital(s[1..], false)
    else (inPlaceholder || !IsUpper(s[0]) || s[0] == 0x51) && NoBareCapital(s[Taken(s)..], inPlaceholder)
  }

  /** Every entry but that of q is one character longer than a byte. */
  lemma TableOfCharacters()
    ensures forall i | 0 <= i < 26 && i != 16 :: |LOWER[i]| >= 2 && CharLength(LOWER[i]) == |LOWER[i]|
    ensures forall i | 0 <= i < 26 && i != 16 :: LOWER[i][0] >= 0x80 && Continues(LOWER[i][1])
    ensures LOWER[16] == [0x20, 0x71]
  {
  }

  lemma AsciiIsValid(b: Byte, t: Bytes)
    requires b < 0x80
    ensures ValidText([b] + t) <==> ValidText(t)
  {
    assert ([b] + t)[1..] == t;
  }

  lemma ExpandIsValid(s: Bytes, t: Bytes)
    requires s != []
    ensures ValidText(Expand(s) + t) <==> (!IsUpper(s[0]) || s[0] == 0x51) && ValidText(t)
  {
    TableOfCharacters();
    if IsLower(s[0]) && s[0] != 0x71 {
      var lower := LOWER[s[0] as int - 0x61];
      WrittenIsValid(lower, t);
    } else if IsUpper(s[0]) && s[0] != 0x51 {
      CapitalIsCut(LOWER[s[0] as int - 0x41], t);
    } else if IsLower(s[0]) || IsUpper(s[0]) {
      TwoAscii(0x20, 0x71, t);
    } else if s[0] == SPACE {
      TwoAscii(SPACE, SPACE, t);
    } else {
      WrittenIsValid(s, t);
    }
  }

  lemma TwoAscii(a: Byte, b: Byte, t: Bytes)
    requires a < 0x80 && b < 0x80
    ensures ValidText([a, b] + t) <==> ValidText(t)
  {
    AsciiIsValid(a, [b] + t);
    AsciiIsValid(b, t);
    assert [a, b] + t == [a] + ([b] + t);
  }

  lemma CapitalIsCut(lower: Bytes, t: Bytes)
    requires |lower| >= 2 && lower[0] >= 0x80 && Continues(lower[1])
    ensures !ValidText(Capital(lower) + t)
  {
    var rest := lower[1..] + t;
    assert Capital(lower) + t == REPLACEMENT + rest;
    assert rest[0] == lower[1] && CharLength(rest) == 0;
    assert CharLength(REPLACEMENT + rest) == 3 && (REPLACEMENT + rest)[3..] == rest;
  }

  /** A capital letter outside placeholders is cut inside its encoding, so the result is valid
      UTF-8 exactly when there is none but Q. */
  lemma {:induction false} LocalizedIsTextExactly(text: Bytes, inPlaceholder: bool)
    ensures ValidText(Localized(text, inPlaceholder)) <==> NoBareCapital(text, inPlaceholder)
    decreases |text|
  {
    if text != [] {
      var c := text[0];
      if c == OPEN || c == CLOSE {
        LocalizedIsTextExactly(text[1..], c == OPEN);
        AsciiIsValid(c, Localized(text[1..], c == OPEN));
      } else {
        var rest := text[Taken(text)..];
        LocalizedIsTextExactly(rest, inPlaceholder);
        if inPlaceholder {
          WrittenIsValid(text, Localized(rest, true));
        } else {
          ExpandIsValid(text, Localized(rest, false));
        }
      }
    }
  }
}
