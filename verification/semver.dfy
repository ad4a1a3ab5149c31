/** Version comparison and the default update decision of internal/autoupdate/autoupdate.go. */
module Semver {
  import opened Text

  function NormalizeVersion(v: string): string {
    var t := Trim(v);
    if "v" <= t then t[1..] else t
  }

  /** A version without its tag, and the tag after the first hyphen. */
  function Clean(v: string): string {
    var n := NormalizeVersion(v);
    n[..IndexOf(n, '-')]
  }

  function Tag(v: string): string {
    var n := NormalizeVersion(v);
    var i := IndexOf(n, '-');
    if i < |n| then n[i + 1..] else ""
  }

  function Parts(v: string): seq<string> {
    Split(Clean(v), '.')
  }

  /** The number in a position; a missing part and one that is not a number count as zero, and
      one too large for 64 bits saturates. */
  function Part(v: string, i: nat): int {
    if i < |Parts(v)| then AtoiOrZero(Parts(v)[i]) else 0
  }

  function Length(v1: string, v2: string): nat {
    if |Parts(v2)| > |Parts(v1)| then |Parts(v2)| else |Parts(v1)|
  }

  function CompareParts(v1: string, v2: string, i: nat, n: nat): int
    decreases n - i
  {
    if i >= n then 0
    else if Part(v1, i) < Part(v2, i) then -1
    else if Part(v1, i) > Part(v2, i) then 1
    else CompareParts(v1, v2, i + 1, n)
  }

  /** A version without a tag is above the same version with one; tags compare as strings. */
  function CompareTags(t1: string, t2: string): int {
    if t1 == "" && t2 != "" then 1
    else if t1 != "" && t2 == "" then -1
    else if Less(t1, t2) then -1
    else if Less(t2, t1) then 1
    else 0
  }

  function Compare(v1: string, v2: string): int {
    var c := CompareParts(v1, v2, 0, Length(v1, v2));
    if c != 0 then c else CompareTags(Tag(v1), Tag(v2))
  }

  /** Separates the tag, if there is one. */
  method SplitTag(v: string) returns (clean: string, pre: string)
    ensures clean == Clean(v) && pre == Tag(v)
  {
    clean, pre := NormalizeVersion(v), "";
    var idx := IndexOf(clean, '-');
    if idx < |clean| {
      pre := clean[idx + 1..];
      clean := clean[..idx];
    }
  }

  method CompareSemver(v1: string, v2: string) returns (c: int)
    ensures c == Compare(v1, v2)
  {
    var clean1, pre1 := SplitTag(v1);
    var clean2, pre2 := SplitTag(v2);
    var parts1, parts2 := Split(clean1, '.'), Split(clean2, '.');
    hide Clean, Tag, Split, AtoiOrZero, CompareTags;
    var maxLen := |parts1|;
    if |parts2| > maxLen {
      maxLen := |parts2|;
    }
    for i := 0 to maxLen
      invariant CompareParts(v1, v2, 0, maxLen) == CompareParts(v1, v2, i, maxLen)
    {
      var n1, n2 := 0, 0;
      if i < |parts1| {
        n1 := AtoiOrZero(parts1[i]);
      }
      if i < |parts2| {
        n2 := AtoiOrZero(parts2[i]);
      }
      if n1 < n2 {
        return -1;
      }
      if n1 > n2 {
        return 1;
      }
    }
    return CompareTags(pre1, pre2);
  }

  // ---------- the order without the loop ----------

  /** The versions agree before position `k`, counting missing parts as zero. */
  ghost predicate AgreeBefore(v1: string, v2: string, k: nat) {
    forall i: nat | i < k :: Part(v1, i) == Part(v2, i)
  }

  ghost predicate SameNumbers(v1: string, v2: string) {
    forall i: nat :: Part(v1, i) == Part(v2, i)
  }

  /** The first is lower at the first position where they differ. */
  ghost predicate LowerAt(v1: string, v2: string, k: nat) {
    AgreeBefore(v1, v2, k) && Part(v1, k) < Part(v2, k)
  }

  /** Release above prerelease, prereleases as plain strings. */
  ghost predicate TagLess(t1: string, t2: string) {
    t1 != "" && (t2 == "" || Less(t1, t2))
  }

  /** The order of versions stated position by position, with no common length in it. */
  ghost predicate Precedes(v1: string, v2: string) {
    || (exists k: nat :: LowerAt(v1, v2, k))
    || (SameNumbers(v1, v2) && TagLess(Tag(v1), Tag(v2)))
  }

  lemma {:induction false} ComparePartsMeans(v1: string, v2: string, i: nat, n: nat)
    requires AgreeBefore(v1, v2, i)
    ensures var c := CompareParts(v1, v2, i, n);
            && (c == -1 || c == 0 || c == 1)
            && (c == -1 ==> exists k: nat :: LowerAt(v1, v2, k))
            && (c == 1 ==> exists k: nat :: LowerAt(v2, v1, k))
            && (c == 0 ==> AgreeBefore(v1, v2, n))
    decreases n - i
  {
    hide Part;
    if i < n {
      if Part(v1, i) < Part(v2, i) {
        assert LowerAt(v1, v2, i);
      } else if Part(v1, i) > Part(v2, i) {
        assert LowerAt(v2, v1, i);
      } else {
        ComparePartsMeans(v1, v2, i + 1, n);
      }
    }
  }

  /** At most one of two versions is lower, and not when all numbers agree. */
  lemma LowerOneWay(v1: string, v2: string)
    ensures !((exists k: nat :: LowerAt(v1, v2, k)) && (exists k: nat :: LowerAt(v2, v1, k)))
    ensures SameNumbers(v1, v2) ==> !(exists k: nat :: LowerAt(v1, v2, k))
  {
    hide Part;
    if j: nat, k: nat :| LowerAt(v1, v2, j) && LowerAt(v2, v1, k) {
      assert false;
    }
  }

  lemma TagsCompare(t1: string, t2: string)
    ensures CompareTags(t1, t2) == if TagLess(t1, t2) then -1 else if TagLess(t2, t1) then 1 else 0
    ensures CompareTags(t1, t2) == 0 <==> t1 == t2
    ensures !(TagLess(t1, t2) && TagLess(t2, t1))
  {
    LessTotal(t1, t2);
    LessTotal(t1, t1);
  }

  /** The comparison computes exactly this order, whatever the part counts. */
  lemma CompareMeans(v1: string, v2: string)
    ensures Compare(v1, v2) == -1 <==> Precedes(v1, v2)
    ensures Compare(v1, v2) == 1 <==> Precedes(v2, v1)
    ensures Compare(v1, v2) == 0 <==> SameNumbers(v1, v2) && Tag(v1) == Tag(v2)
    ensures Compare(v1, v2) == -1 || Compare(v1, v2) == 0 || Compare(v1, v2) == 1
  {
    var n := Length(v1, v2);
    ComparePartsMeans(v1, v2, 0, n);
    LowerOneWay(v1, v2);
    LowerOneWay(v2, v1);
    TagsCompare(Tag(v1), Tag(v2));
    assert AgreeBefore(v1, v2, n) ==> SameNumbers(v1, v2);
    if CompareParts(v1, v2, 0, n) == 0 {
      assert SameNumbers(v1, v2) && SameNumbers(v2, v1);
    }
  }

  // ---------- a total preorder ----------

  lemma CompareReflexive(v: string)
    ensures Compare(v, v) == 0
  {
    CompareMeans(v, v);
  }

  lemma CompareAntisymmetric(v1: string, v2: string)
    ensures Compare(v2, v1) == -Compare(v1, v2)
  {
    CompareMeans(v1, v2);
    CompareMeans(v2, v1);
  }

  lemma PrecedesTransitive(a: string, b: string, c: string)
    requires Precedes(a, b) && Precedes(b, c)
    ensures Precedes(a, c)
  {
    hide Part;
    if j: nat :| LowerAt(a, b, j) {
      if k: nat :| LowerAt(b, c, k) {
        assert LowerAt(a, c, if j < k then j else k);
      } else {
        assert LowerAt(a, c, j);
      }
    } else if k: nat :| LowerAt(b, c, k) {
      assert LowerAt(a, c, k);
    } else {
      if Tag(c) != "" {
        LessTransitive(Tag(a), Tag(b), Tag(c));
      }
    }
  }

  lemma PrecedesAlike(a: string, b: string, c: string)
    requires SameNumbers(a, b) && Tag(a) == Tag(b)
    ensures Precedes(a, c) <==> Precedes(b, c)
    ensures Precedes(c, a) <==> Precedes(c, b)
  {
    hide Part;
    forall k: nat
      ensures LowerAt(a, c, k) <==> LowerAt(b, c, k)
      ensures LowerAt(c, a, k) <==> LowerAt(c, b, k)
    {
    }
  }

  /** Transitive, strictly so when either step is strict. */
  lemma CompareTransitive(a: string, b: string, c: string)
    requires Compare(a, b) <= 0 && Compare(b, c) <= 0
    ensures Compare(a, c) <= 0
    ensures Compare(a, c) == 0 <==> Compare(a, b) == 0 && Compare(b, c) == 0
  {
    hide Precedes, SameNumbers, Compare;
    CompareMeans(a, b);
    CompareMeans(b, c);
    CompareMeans(a, c);
    if Compare(a, b) == 0 {
      PrecedesAlike(a, b, c);
      AlikeCompose(a, b, c);
    } else if Compare(b, c) == 0 {
      AlikeFlipped(b, c);
      PrecedesAlike(c, b, a);
    } else {
      PrecedesTransitive(a, b, c);
    }
  }

  lemma AlikeFlipped(b: string, c: string)
    requires SameNumbers(b, c)
    ensures SameNumbers(c, b)
  {
    hide Part;
  }

  lemma AlikeCompose(a: string, b: string, c: string)
    requires SameNumbers(a, b)
    ensures SameNumbers(b, c) ==> SameNumbers(a, c)
    ensures SameNumbers(a, c) ==> SameNumbers(b, c)
  {
    hide Part;
  }

  /** Section 11 of Semantic Versioning 2.0.0: with equal numbers a release is above any of its
      prereleases. */
  lemma ReleaseAbovePrerelease(release: string, prerelease: string)
    requires SameNumbers(release, prerelease) && Tag(release) == "" && Tag(prerelease) != ""
    ensures Compare(prerelease, release) == -1
  {
    CompareMeans(prerelease, release);
    AlikeFlipped(release, prerelease);
  }

  // ---------- updates ----------

  /** The version installed after an update run that was offered `latest`. */
  function UpdateTo(current: string, latest: string, force: bool, target: string): string {
    if !force && Compare(current, latest) >= 0 && target == "" then current
    else if target != "" then NormalizeVersion(target)
    else latest
  }

  /** Default updates, each offered whatever was latest at its time. */
  function Updates(current: string, offers: seq<string>): string {
    if offers == [] then current
    else UpdateTo(Updates(current, offers[..|offers| - 1]), offers[|offers| - 1], false, "")
  }

  lemma UpdatesNext(current: string, offers: seq<string>, j: nat)
    requires j < |offers|
    ensures var before, after := Updates(current, offers[..j]), Updates(current, offers[..j + 1]);
            before == after || Compare(before, after) < 0
  {
    hide Compare;
    assert offers[..j + 1][..j] == offers[..j];
  }

  /** A chain of default updates never goes down; what it leaves it leaves for good. */
  lemma {:induction false} UpdatesAscend(current: string, offers: seq<string>, i: nat, j: nat)
    requires i <= j <= |offers|
    ensures var before, after := Updates(current, offers[..i]), Updates(current, offers[..j]);
            before == after || Compare(before, after) < 0
    decreases j - i
  {
    hide *;
    if i < j {
      var before, middle := Updates(current, offers[..i]), Updates(current, offers[..j - 1]);
      var after := Updates(current, offers[..j]);
      UpdatesAscend(current, offers, i, j - 1);
      UpdatesNext(current, offers, j - 1);
      if before != middle && middle != after {
        CompareTransitive(before, middle, after);
      }
    }
  }

  /** Once changed, a version is never installed again, under that spelling or an equal one. */
  lemma UpdatesNeverRevisit(current: string, offers: seq<string>, i: nat, j: nat, k: nat)
    requires i <= j <= k <= |offers|
    requires Updates(current, offers[..i]) != Updates(current, offers[..j])
    ensures Compare(Updates(current, offers[..i]), Updates(current, offers[..k])) < 0
  {
    hide *;
    var a, b, c := Updates(current, offers[..i]), Updates(current, offers[..j]), Updates(current, offers[..k]);
    UpdatesAscend(current, offers, i, j);
    UpdatesAscend(current, offers, j, k);
    if b != c {
      CompareTransitive(a, b, c);
    }
  }

  /** The last offer is taken only over something below it. */
  lemma LastOffer(current: string, offers: seq<string>)
    requires offers != []
    ensures var before, last := Updates(current, offers[..|offers| - 1]), offers[|offers| - 1];
            var after := Updates(current, offers);
            && (after == before || after == last)
            && Compare(before, after) <= 0 && Compare(last, after) <= 0
  {
    var before, last := Updates(current, offers[..|offers| - 1]), offers[|offers| - 1];
    CompareAntisymmetric(before, last);
    CompareReflexive(before);
    CompareReflexive(last);
    hide Compare;
  }

  ghost predicate NoneAbove(offers: seq<string>, v: string) {
    forall i | 0 <= i < |offers| :: Compare(offers[i], v) <= 0
  }

  lemma NoneAboveHigher(offers: seq<string>, v: string, w: string)
    requires NoneAbove(offers, v) && Compare(v, w) <= 0
    ensures NoneAbove(offers, w)
  {
    hide Compare;
    forall i | 0 <= i < |offers| ensures Compare(offers[i], w) <= 0 {
      CompareTransitive(offers[i], v, w);
    }
  }

  lemma NoneAboveLast(offers: seq<string>, v: string)
    requires offers != [] && NoneAbove(offers[..|offers| - 1], v) && Compare(offers[|offers| - 1], v) <= 0
    ensures NoneAbove(offers, v)
  {
    hide Compare;
    forall i | 0 <= i < |offers| ensures Compare(offers[i], v) <= 0 {
      if i < |offers| - 1 {
        assert offers[..|offers| - 1][i] == offers[i];
      }
    }
  }

  lemma NotAboveHigher(u: string, v: string, w: string)
    requires Compare(u, v) <= 0 && Compare(v, w) <= 0
    ensures Compare(u, w) <= 0
  {
    CompareTransitive(u, v, w);
  }

  lemma {:induction false} InstalledWasOffered(current: string, offers: seq<string>)
    ensures Updates(current, offers) == current || Updates(current, offers) in offers
  {
    if offers != [] {
      InstalledWasOffered(current, offers[..|offers| - 1]);
      LastOffer(current, offers);
    }
  }

  lemma {:induction false} NoneAboveInstalled(current: string, offers: seq<string>)
    ensures Compare(current, Updates(current, offers)) <= 0 && NoneAbove(offers, Updates(current, offers))
  {
    if offers == [] {
      CompareReflexive(current);
    } else {
      hide *;
      var init := offers[..|offers| - 1];
      var before, after := Updates(current, init), Updates(current, offers);
      NoneAboveInstalled(current, init);
      LastOffer(current, offers);
      NotAboveHigher(current, before, after);
      NoneAboveHigher(init, before, after);
      NoneAboveLast(offers, after);
    }
  }

  /** After any offers the installed version is one that was there or offered, and no offer is
      above it. */
  lemma UpdatesReachNewest(current: string, offers: seq<string>)
    ensures var installed := Updates(current, offers);
            && (installed == current || installed in offers)
            && Compare(current, installed) <= 0
            && forall i | 0 <= i < |offers| :: Compare(offers[i], installed) <= 0
  {
    InstalledWasOffered(current, offers);
    NoneAboveInstalled(current, offers);
    hide Compare, Updates;
  }

  /** A forced update takes the offer, and a named target is taken as it is, without the prefix. */
  lemma ChosenVersions(current: string, latest: string, force: bool, target: string)
    ensures target == "" && force ==> UpdateTo(current, latest, force, target) == latest
    ensures target != "" ==> UpdateTo(current, latest, force, target) == NormalizeVersion(target)
  {
  }

  /** White space around a version and one "v" before it do not matter. */
  lemma PrefixIsIgnored(v: string, n: nat)
    requires Trimmed(v) && v != "" && v[0] != 'v'
    ensures Compare(Spaces(n) + ("v" + v), v) == 0
  {
    var prefixed := "v" + v;
    TrimSpaces(n, prefixed);
    TrimIsTrimmed(prefixed);
    TrimIsTrimmed(v);
    assert prefixed[1..] == v && prefixed[|prefixed| - 1] == v[|v| - 1];
    assert NormalizeVersion(Spaces(n) + prefixed) == NormalizeVersion(v);
    hide Clean, Tag, Part, NormalizeVersion, Spaces;
    CompareMeans(Spaces(n) + prefixed, v);
    SameReading(Spaces(n) + prefixed, v);
  }

  lemma SameReading(v: string, w: string)
    requires NormalizeVersion(v) == NormalizeVersion(w)
    ensures SameNumbers(v, w) && Tag(v) == Tag(w)
  {
  }
}
