/**
 Text helpers shared by the models: substring tests, ASCII lower-casing, whitespace
 stripping, decimal numerals and order-preserving removal of repeats.
 */
module Strings {

  // ---------- Substrings ----------

  predicate OccursAt(hay: string, needle: string, i: int) {
    0 <= i <= |hay| - |needle| && hay[i..i + |needle|] == needle
  }

  /** Python's `needle in hay`. */
  predicate Contains(hay: string, needle: string) {
    exists i :: 0 <= i <= |hay| - |needle| && OccursAt(hay, needle, i)
  }

  lemma ContainsTransitive(hay: string, mid: string, needle: string)
    requires Contains(hay, mid) && Contains(mid, needle)
    ensures Contains(hay, needle)
  {
    var i :| 0 <= i <= |hay| - |mid| && OccursAt(hay, mid, i);
    var j :| 0 <= j <= |mid| - |needle| && OccursAt(mid, needle, j);
    OccursWithin(hay, i, mid, needle, j);
  }

  /** An occurrence inside a stretch of the text is an occurrence in the text, shifted. */
  lemma OccursWithin(hay: string, i: nat, mid: string, needle: string, j: int)
    requires i + |mid| <= |hay| && hay[i..i + |mid|] == mid
    requires OccursAt(mid, needle, j)
    ensures OccursAt(hay, needle, i + j) && Contains(hay, needle)
  {
    forall k | 0 <= k < |needle| ensures hay[i + j..i + j + |needle|][k] == needle[k] {
      assert needle[k] == mid[j..j + |needle|][k] == mid[j + k];
      assert mid[j + k] == hay[i..i + |mid|][j + k];
    }
    assert OccursAt(hay, needle, i + j);
  }

  /** A needle with a character the text does not have cannot occur in it. */
  lemma OccurrenceKeepsChars(hay: string, needle: string)
    ensures Contains(hay, needle) ==> forall c :: c in needle ==> c in hay
  {
    if Contains(hay, needle) {
      var i :| 0 <= i <= |hay| - |needle| && OccursAt(hay, needle, i);
      forall c | c in needle ensures c in hay {
        var k :| 0 <= k < |needle| && needle[k] == c;
        assert hay[i + k] == hay[i..i + |needle|][k];
      }
    }
  }

  /** An English text has no Hebrew word. */
  lemma NoHebrewWord(t: string, k: string)
    requires k != "" && k[0] > 'z' && forall c :: c in t ==> c <= 'z'
    ensures !Contains(t, k)
  {
    OccurrenceKeepsChars(t, k);
    assert k[0] in k;
  }

  lemma ContainsBetween(before: string, needle: string, after: string)
    ensures Contains(before + needle + after, needle)
  {
    var hay := before + needle + after;
    assert hay[|before|..|before| + |needle|] == needle;
    assert OccursAt(hay, needle, |before|);
  }

  /** An occurrence splits the text in three. */
  lemma ContainsParts(hay: string, needle: string) returns (before: string, after: string)
    requires Contains(hay, needle)
    ensures hay == before + needle + after
  {
    var i :| 0 <= i <= |hay| - |needle| && OccursAt(hay, needle, i);
    before, after := hay[..i], hay[i + |needle|..];
  }

  predicate EndsWith(s: string, suffix: string) {
    |suffix| <= |s| && s[|s| - |suffix|..] == suffix
  }

  lemma EndsWithParts(before: string, suffix: string, s: string)
    ensures EndsWith(before + suffix, suffix)
    ensures EndsWith(s, suffix) ==> s == s[..|s| - |suffix|] + suffix
  {
  }

  /** `any(k in text for k in needles)` */
  predicate ContainsAny(text: string, needles: seq<string>) {
    exists k :: k in needles && Contains(text, k)
  }

  /** `sum(1 for n in needles if n in text)` */
  function CountHits(text: string, needles: seq<string>): (n: nat)
    ensures n <= |needles|
    ensures n > 0 <==> ContainsAny(text, needles)
  {
    if needles == [] then 0
    else
      assert needles == [needles[0]] + needles[1..];
      (if Contains(text, needles[0]) then 1 else 0) + CountHits(text, needles[1..])
  }

  /** The positions of the needles that occur. */
  function HitPositions(text: string, needles: seq<string>): set<nat> {
    set i: nat | i < |needles| && Contains(text, needles[i])
  }

  /** The count is the number of needles that occur. */
  lemma {:induction false} CountHitsIsNumber(text: string, needles: seq<string>)
    ensures CountHits(text, needles) == |HitPositions(text, needles)|
  {
    if needles == [] {
      assert HitPositions(text, needles) == {};
    } else {
      var n := |needles| - 1;
      var init, last := needles[..n], needles[n];
      assert needles == init + [last];
      CountHitsConcat(text, init, [last]);
      CountHitsCons(text, last, []);
      assert [last] + [] == [last];
      CountHitsIsNumber(text, init);
      assert HitPositions(text, needles) == HitPositions(text, init) + if Contains(text, last) then {n} else {};
    }
  }

  lemma CountHitsCons(text: string, needle: string, needles: seq<string>)
    ensures CountHits(text, [needle] + needles) == (if Contains(text, needle) then 1 else 0) + CountHits(text, needles)
  {
    assert ([needle] + needles)[1..] == needles;
  }

  lemma {:induction false} CountHitsConcat(text: string, a: seq<string>, b: seq<string>)
    ensures CountHits(text, a + b) == CountHits(text, a) + CountHits(text, b)
  {
    if a == [] {
      assert a + b == b;
    } else {
      assert (a + b)[1..] == a[1..] + b;
      CountHitsConcat(text, a[1..], b);
    }
  }

  // ---------- Lower case ----------

  /** `str.lower` on ASCII letters; Hebrew has no letter case. */
  function LowerChar(c: char): char {
    if 'A' <= c <= 'Z' then (c as int + 32) as char else c
  }

  function Lower(s: string): (t: string)
    ensures |t| == |s|
    ensures forall i :: 0 <= i < |s| ==> t[i] == LowerChar(s[i])
  {
    seq(|s|, i requires 0 <= i < |s| => LowerChar(s[i]))
  }

  /** The letters, capitals and small ones in the same order; every other character stays as it is. */
  lemma LowerCharExact(c: char)
    ensures var capitals, small := "ABCDEFGHIJKLMNOPQRSTUVWXYZ", "abcdefghijklmnopqrstuvwxyz";
      forall i :: 0 <= i < 26 ==> LowerChar(capitals[i]) == small[i]
    ensures c < 'A' || c > 'Z' ==> LowerChar(c) == c
  {
  }

  lemma LowerConcat(a: string, b: string)
    ensures Lower(a + b) == Lower(a) + Lower(b)
  {
  }

  // ---------- Whitespace ----------

  predicate IsSpace(c: char) {
    c == ' ' || '\t' <= c <= '\r' || '\U{1C}' <= c <= '\U{1F}'
  }

  lemma IsSpaceExact(c: char)
    ensures IsSpace(c) <==> c in " \t\n\U{0B}\U{0C}\r\U{1C}\U{1D}\U{1E}\U{1F}"
  {
  }

  function StripLeft(s: string): string {
    if s != "" && IsSpace(s[0]) then StripLeft(s[1..]) else s
  }

  function StripRight(s: string): string {
    if s != "" && IsSpace(s[|s| - 1]) then StripRight(s[..|s| - 1]) else s
  }

  /** `str.strip()` */
  function Strip(s: string): string {
    StripRight(StripLeft(s))
  }

  lemma {:induction false} StripLeftShape(s: string)
    ensures |StripLeft(s)| <= |s| && StripLeft(s) == s[|s| - |StripLeft(s)|..]
    ensures forall i :: 0 <= i < |s| - |StripLeft(s)| ==> IsSpace(s[i])
    ensures StripLeft(s) != "" ==> !IsSpace(StripLeft(s)[0])
  {
    if s == "" || !IsSpace(s[0]) {
    } else {
      var rest := s[1..];
      StripLeftShape(rest);
      var n := |rest| - |StripLeft(rest)|;
      assert rest[n..] == s[n + 1..];
      forall i | 0 <= i < n + 1 ensures IsSpace(s[i]) {
        assert i > 0 ==> s[i] == rest[i - 1];
      }
    }
  }

  lemma {:induction false} StripRightShape(s: string)
    ensures |StripRight(s)| <= |s| && StripRight(s) == s[..|StripRight(s)|]
    ensures forall i :: |StripRight(s)| <= i < |s| ==> IsSpace(s[i])
    ensures StripRight(s) != "" ==> !IsSpace(StripRight(s)[|StripRight(s)| - 1])
  {
    if s == "" || !IsSpace(s[|s| - 1]) {
    } else {
      var init := s[..|s| - 1];
      StripRightShape(init);
      var n := |StripRight(init)|;
      assert init[..n] == s[..n];
      forall i | n <= i < |s| ensures IsSpace(s[i]) {
        assert i < |init| ==> s[i] == init[i];
      }
    }
  }

  /** Strip keeps one contiguous stretch, cut only where there is whitespace. */
  lemma StripShape(s: string) returns (lo: nat, hi: nat)
    ensures lo <= hi <= |s| && Strip(s) == s[lo..hi]
    ensures forall i :: 0 <= i < |s| && !(lo <= i < hi) ==> IsSpace(s[i])
    ensures Strip(s) != "" ==> !IsSpace(Strip(s)[0]) && !IsSpace(Strip(s)[|Strip(s)| - 1])
  {
    var l := StripLeft(s);
    StripLeftShape(s);
    StripRightShape(l);
    lo := |s| - |l|;
    hi := lo + |StripRight(l)|;
    forall i | 0 <= i < |s| && !(lo <= i < hi) ensures IsSpace(s[i]) {
      if i >= hi { assert s[i] == l[i - lo]; }
    }
  }

  predicate Trimmed(s: string) {
    s != "" ==> !IsSpace(s[0]) && !IsSpace(s[|s| - 1])
  }

  lemma TrimmedIsStripped(s: string)
    requires Trimmed(s)
    ensures Strip(s) == s
  {
  }

  /** Stripping does not hide or create a word that starts and ends with a visible character. */
  lemma StripKeepsWord(s: string, w: string)
    requires w != "" && !IsSpace(w[0]) && !IsSpace(w[|w| - 1])
    ensures Contains(Strip(s), w) <==> Contains(s, w)
  {
    var lo, hi := StripShape(s);
    var t := Strip(s);
    if Contains(t, w) {
      var i :| 0 <= i <= |t| - |w| && OccursAt(t, w, i);
      OccursWithin(s, lo, t, w, i);
    }
    if Contains(s, w) {
      var i :| 0 <= i <= |s| - |w| && OccursAt(s, w, i);
      assert s[i] == w[0] && s[i + |w| - 1] == w[|w| - 1];
      forall k | 0 <= k < |w| ensures t[i - lo..i - lo + |w|][k] == w[k] {
        assert t[i - lo + k] == s[i + k] == s[i..i + |w|][k];
      }
      assert OccursAt(t, w, i - lo);
    }
  }

  // ---------- Decimal numerals ----------

  function Digit(d: nat): char
    requires d < 10
  {
    ('0' as int + d) as char
  }

  /** `str(n)` for a non-negative integer. */
  function Decimal(n: nat): string {
    if n < 10 then [Digit(n)] else Decimal(n / 10) + [Digit(n % 10)]
  }

  lemma {:induction false} DecimalInjective(m: nat, n: nat)
    requires Decimal(m) == Decimal(n)
    ensures m == n
  {
    var s, t := Decimal(m), Decimal(n);
    DecimalNonEmpty(m / 10);
    DecimalNonEmpty(n / 10);
    assert s[|s| - 1] == Digit(m % 10) && t[|t| - 1] == Digit(n % 10);
    if m >= 10 && n >= 10 {
      assert s[..|s| - 1] == Decimal(m / 10) && t[..|t| - 1] == Decimal(n / 10);
      DecimalInjective(m / 10, n / 10);
    } else {
      assert |s| == 1 || |t| == 1;
    }
  }

  /** The number a string of digits stands for. */
  function NumberOf(s: string): int {
    if s == "" then 0 else 10 * NumberOf(s[..|s| - 1]) + s[|s| - 1] as int - '0' as int
  }

  lemma {:induction false} DecimalExact(n: nat)
    ensures NumberOf(Decimal(n)) == n && forall c :: c in Decimal(n) ==> c in "0123456789"
    ensures n > 0 ==> Decimal(n)[0] != '0'
  {
    if n < 10 {
      assert [Digit(n)][..0] == "";
      assert Digit(n) == "0123456789"[n];
    } else {
      DecimalExact(n / 10);
      var s := Decimal(n);
      assert s[..|s| - 1] == Decimal(n / 10);
      assert Digit(n % 10) == "0123456789"[n % 10];
    }
  }

  lemma DecimalNonEmpty(n: nat)
    ensures |Decimal(n)| > 0
  {
  }

  // ---------- Repeats ----------

  predicate NoRepeats<T(==)>(s: seq<T>) {
    forall i, j :: 0 <= i < j < |s| ==> s[i] != s[j]
  }

  /** `list(dict.fromkeys(s))`: the first occurrence of every element, in order. */
  function Unique<T(==,!new)>(s: seq<T>): (r: seq<T>)
    ensures NoRepeats(r)
    ensures forall x :: x in r <==> x in s
  {
    if s == [] then []
    else
      var r := Unique(s[..|s| - 1]);
      var x := s[|s| - 1];
      assert s == s[..|s| - 1] + [x];
      if x in r then r else r + [x]
  }

  lemma {:induction false} UniqueOfDistinct<T(!new)>(s: seq<T>)
    requires NoRepeats(s)
    ensures Unique(s) == s
  {
    if s == [] {
    } else {
      UniqueOfDistinct(s[..|s| - 1]);
      assert s == s[..|s| - 1] + [s[|s| - 1]];
    }
  }

  /** ... in the order of first occurrence: x[i] has occurred before x[j] occurs for the first time. */
  lemma {:induction false} UniqueKeepsOrder<T(!new)>(s: seq<T>, i: nat, j: nat) returns (p: nat)
    requires i < j < |Unique(s)|
    ensures p < |s| && s[p] == Unique(s)[i] && Unique(s)[j] !in s[..p + 1]
  {
    var init, x := s[..|s| - 1], s[|s| - 1];
    var r := Unique(init);
    if j < |r| {
      p := UniqueKeepsOrder(init, i, j);
      assert s[..p + 1] == init[..p + 1];
    } else {
      assert r[i] in init;
      p :| 0 <= p < |init| && init[p] == r[i];
      assert s[..p + 1] == init[..p + 1];
    }
  }

  lemma UniqueEarlier<T(!new)>(a: seq<T>, b: seq<T>, i: nat, j: nat)
    requires i < j < |Unique(a + b)| && Unique(a + b)[j] in a
    ensures Unique(a + b)[i] in a
  {
    var p := UniqueKeepsOrder(a + b, i, j);
    var k :| 0 <= k < |a| && a[k] == Unique(a + b)[j];
    assert (a + b)[k] == a[k];
    var seen := (a + b)[..p + 1];
    assert forall i :: 0 <= i < |seen| ==> (a + b)[i] in seen;
    assert p < k && (a + b)[p] == a[p];
  }

  /** In a concatenation without its repeats, what occurs in the first part comes before what does not. */
  lemma UniqueRanks<T(!new)>(a: seq<T>, b: seq<T>, i: nat, j: nat)
    requires i < |Unique(a + b)| && j < |Unique(a + b)|
    requires Unique(a + b)[i] in a && Unique(a + b)[j] !in a
    ensures i < j
  {
    if j < i {
      UniqueEarlier(a, b, j, i);
    }
  }

  function Elems<T(==)>(s: seq<T>): set<T> {
    set x | x in s
  }

  /** As many distinct elements as positions, exactly when nothing repeats. */
  lemma {:induction false} SizeOfDistinct<T>(s: seq<T>)
    requires NoRepeats(s)
    ensures |Elems(s)| == |s|
  {
    if s != [] {
      var init, x := s[..|s| - 1], s[|s| - 1];
      SizeOfDistinct(init);
      assert s == init + [x];
      assert Elems(s) == Elems(init) + {x};
    } else {
      assert Elems(s) == {};
    }
  }
}
