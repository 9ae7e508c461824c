/** archive/graph_invoice_finder.v3.9.1.py: `normalize_myinvoice_url`. */
module UrlNormal {
  import opened Strings

  const HOST := "://myinvoice.bezeq.co.il"

  /** What the rewriting relies on: the host pattern starts with its only colon and has no backslash. */
  predicate IsHost(h: string) {
    h != "" && h[0] == ':' && (forall i :: 0 < i < |h| ==> h[i] != ':') && '\\' !in h && '?' !in h
  }

  lemma BezeqHost()
    ensures IsHost(HOST)
  {
  }

  /** `s.replace("\\" + c, c)`: drop the backslash before each c. */
  function Unescape(s: string, c: char): (t: string)
    ensures |t| <= |s|
  {
    if s == "" then ""
    else if |s| >= 2 && s[0] == '\\' && s[1] == c then [c] + Unescape(s[2..], c)
    else [s[0]] + Unescape(s[1..], c)
  }

  function UnescapeAll(s: string): string {
    Unescape(Unescape(Unescape(s, '?'), '&'), '=')
  }

  /** `s.replace(host + "//?", host + "/?")` */
  function ReplaceDouble(h: string, s: string): (t: string)
    ensures |t| <= |s|
  {
    if s == "" then ""
    else if h + "//?" <= s then h + "/?" + ReplaceDouble(h, s[|h| + 3..])
    else [s[0]] + ReplaceDouble(h, s[1..])
  }

  /** How many slashes s starts with. */
  function Slashes(s: string): (k: nat)
    ensures k <= |s| && (forall i :: 0 <= i < k ==> s[i] == '/') && (k < |s| ==> s[k] != '/')
  {
    if s != "" && s[0] == '/' then 1 + Slashes(s[1..]) else 0
  }

  /** The number of slashes between the host and a `?`, when s starts that way; 0 if it does not. */
  function Run(h: string, s: string): (k: nat)
    ensures k > 0 ==> h <= s && |h| + k < |s| && s[|h| + k] == '?'
  {
    if h <= s then
      var k := Slashes(s[|h|..]);
      if |h| + k < |s| && s[|h| + k] == '?' then k else 0
    else 0
  }

  /** `re.sub(r"(host)/+(?=\?)", r"\1/", s)` */
  function CollapseRuns(h: string, s: string): (t: string)
    ensures |t| <= |s|
  {
    if s == "" then ""
    else if Run(h, s) > 0 then h + "/" + CollapseRuns(h, s[|h| + Run(h, s)..])
    else [s[0]] + CollapseRuns(h, s[1..])
  }

  function Normalize(u: string): string {
    CollapseRuns(HOST, ReplaceDouble(HOST, UnescapeAll(Strip(u))))
  }

  lemma NeverLonger(u: string)
    ensures |Normalize(u)| <= |u|
  {
    var lo, hi := StripShape(u);
  }

  // ---------- Where the host can start ----------

  lemma CutAgain(s: string, n: nat, b: string)
    requires 0 < n <= |s|
    ensures s[1..][n - 1..] == s[n..]
    ensures [s[0]] + (s[1..][..n - 1] + b) == s[..n] + b
  {
  }

  lemma CollapseStep(h: string, s: string)
    requires s != "" && Run(h, s) == 0
    ensures CollapseRuns(h, s) == [s[0]] + CollapseRuns(h, s[1..])
  {
  }

  lemma ReplaceStep(h: string, s: string)
    requires s != "" && !(h + "//?" <= s)
    ensures ReplaceDouble(h, s) == [s[0]] + ReplaceDouble(h, s[1..])
  {
  }

  lemma NoRunHere(h: string, s: string)
    requires IsHost(h) && s != "" && s[0] != ':'
    ensures Run(h, s) == 0
  {
  }

  /** Text up to the next colon is copied by both rewritings. */
  lemma {:induction false} CollapseCopies(h: string, s: string, n: nat)
    requires IsHost(h) && n <= |s| && forall i :: 0 <= i < n ==> s[i] != ':'
    ensures CollapseRuns(h, s) == s[..n] + CollapseRuns(h, s[n..])
  {
    if n > 0 {
      CollapseCopies(h, s[1..], n - 1);
      CutAgain(s, n, CollapseRuns(h, s[n..]));
      NoRunHere(h, s);
      CollapseStep(h, s);
    } else {
      assert s[0..] == s;
    }
  }

  lemma {:induction false} ReplaceCopies(h: string, s: string, n: nat)
    requires IsHost(h) && n <= |s| && forall i :: 0 <= i < n ==> s[i] != ':'
    ensures ReplaceDouble(h, s) == s[..n] + ReplaceDouble(h, s[n..])
  {
    if n > 0 {
      assert (h + "//?")[0] == ':';
      ReplaceCopies(h, s[1..], n - 1);
      CutAgain(s, n, ReplaceDouble(h, s[n..]));
      ReplaceStep(h, s);
    } else {
      assert s[0..] == s;
    }
  }

  /** A run lies before the next colon, so what comes after that colon does not matter. */
  lemma RunIsLocal(h: string, a: string, x: string)
    requires IsHost(h)
    requires a != "" && (forall i :: 0 < i < |a| ==> a[i] != ':') && (x == "" || x[0] == ':')
    ensures Run(h, a + x) == Run(h, a)
  {
    var s := a + x;
    assert forall i :: 0 <= i < |a| ==> s[i] == a[i];
    assert x != "" ==> s[|a|] == ':';
    assert forall i :: 0 <= i < |h| && h <= s ==> s[i] == h[i];
    assert h <= s ==> |h| <= |a|;
    assert |h| <= |a| ==> s[..|h|] == a[..|h|];
    if h <= a {
      var k, m := Slashes(s[|h|..]), Slashes(a[|h|..]);
      assert forall i :: |h| <= i < |h| + m ==> s[i] == a[|h|..][i - |h|];
      assert forall i :: |h| <= i < |h| + k ==> s[i] == s[|h|..][i - |h|] == '/';
      assert |h| + k <= |a| && m == k;
    }
  }

  /** Cut s after its first character at the next colon. */
  function NextColon(s: string): (n: nat)
    requires s != ""
    ensures 0 < n <= |s| && (forall i :: 0 < i < n ==> s[i] != ':') && (n < |s| ==> s[n] == ':')
  {
    if |s| == 1 || s[1] == ':' then 1
    else
      var m := NextColon(s[1..]);
      assert forall i :: 1 < i < m + 1 ==> s[i] == s[1..][i - 1];
      m + 1
  }

  /** Changing s only from its next colon on cannot create or break a match at its front. */
  lemma RunIgnoresRest(h: string, s: string, n: nat, y: string)
    requires IsHost(h) && 0 < n <= |s| && (forall i :: 0 < i < n ==> s[i] != ':') && (n < |s| ==> s[n] == ':')
    requires y == "" || y[0] == ':'
    ensures Run(h, s[..n] + y) == Run(h, s)
  {
    var a, x := s[..n], s[n..];
    assert s == a + x;
    RunIsLocal(h, a, x);
    RunIsLocal(h, a, y);
  }

  lemma FrontAgain(h: string, s: string, n: nat, y: string, r: string)
    requires IsHost(h) && 0 < n <= |s| && (forall i :: 0 < i < n ==> s[i] != ':') && (n < |s| ==> s[n] == ':')
    requires (y == "" || y[0] == ':') && r == s[1..][..n - 1] + y
    ensures Run(h, [s[0]] + r) == Run(h, s)
  {
    RunIgnoresRest(h, s, n, y);
    assert s[..n] == [s[0]] + s[1..][..n - 1];
    assert [s[0]] + r == s[..n] + y;
  }

  lemma CollapseTail(h: string, s: string) returns (n: nat, y: string)
    requires IsHost(h) && s != ""
    ensures 0 < n <= |s| && (forall i :: 0 < i < n ==> s[i] != ':') && (n < |s| ==> s[n] == ':')
    ensures (y == "" || y[0] == ':') && CollapseRuns(h, s[1..]) == s[1..][..n - 1] + y
  {
    n := NextColon(s);
    var rest := s[1..];
    y := CollapseRuns(h, rest[n - 1..]);
    CollapseCopies(h, rest, n - 1);
    FirstKept(h, rest[n - 1..]);
  }

  lemma CollapseKeepsFront(h: string, s: string)
    requires IsHost(h) && s != ""
    ensures Run(h, [s[0]] + CollapseRuns(h, s[1..])) == Run(h, s)
  {
    var n, y := CollapseTail(h, s);
    FrontAgain(h, s, n, y, CollapseRuns(h, s[1..]));
  }

  lemma ReplaceTail(h: string, s: string) returns (n: nat, y: string)
    requires IsHost(h) && s != ""
    ensures 0 < n <= |s| && (forall i :: 0 < i < n ==> s[i] != ':') && (n < |s| ==> s[n] == ':')
    ensures (y == "" || y[0] == ':') && ReplaceDouble(h, s[1..]) == s[1..][..n - 1] + y
  {
    n := NextColon(s);
    var rest := s[1..];
    y := ReplaceDouble(h, rest[n - 1..]);
    ReplaceCopies(h, rest, n - 1);
    FirstKept(h, rest[n - 1..]);
  }

  lemma ReplaceKeepsFront(h: string, s: string)
    requires IsHost(h) && s != ""
    ensures Run(h, [s[0]] + ReplaceDouble(h, s[1..])) == Run(h, s)
  {
    var n, y := ReplaceTail(h, s);
    FrontAgain(h, s, n, y, ReplaceDouble(h, s[1..]));
  }

  lemma FirstKept(h: string, s: string)
    requires IsHost(h)
    ensures s == "" <==> CollapseRuns(h, s) == ""
    ensures s == "" <==> ReplaceDouble(h, s) == ""
    ensures s != "" ==> CollapseRuns(h, s)[0] == s[0] && ReplaceDouble(h, s)[0] == s[0]
  {
  }

  // ---------- The literal replacement is redundant ----------

  lemma RunShape(h: string, s: string)
    requires IsHost(h)
    requires Run(h, s) > 0
    ensures var n := |h| + Run(h, s);
      s == h + s[|h|..n] + s[n..] && (forall i :: |h| <= i < n ==> s[i] == '/') && s[n] == '?'
    ensures h + "//?" <= s <==> Run(h, s) == 2
  {
    var k := Slashes(s[|h|..]);
    var n := |h| + k;
    assert forall i :: |h| <= i < n ==> s[i] == s[|h|..][i - |h|];
    if k == 2 {
      assert s[..|h| + 3] == h + "//?";
    }
    if h + "//?" <= s {
      var l := h + "//?";
      assert s[|h|] == l[|h|] && s[|h| + 1] == l[|h| + 1] && s[|h| + 2] == l[|h| + 2];
    }
  }

  lemma DoubleIsRun(h: string, s: string)
    requires IsHost(h)
    requires h + "//?" <= s
    ensures Run(h, s) == 2
  {
    var l := h + "//?";
    assert forall i :: 0 <= i < |l| ==> s[i] == l[i];
    assert h <= s;
    var k := Slashes(s[|h|..]);
    assert s[|h|..][0] == '/' && s[|h|..][1] == '/' && s[|h|..][2] == '?';
    assert k == 2;
  }

  lemma CollapseQuestion(h: string, s: string)
    requires IsHost(h)
    requires s != "" && s[0] == '?'
    ensures CollapseRuns(h, s) == "?" + CollapseRuns(h, s[1..])
  {
  }

  /** A string that starts with a run of k slashes, rewritten by the regex. */
  lemma CollapseAtRun(h: string, k: nat, slashes: string, rest: string)
    requires IsHost(h)
    requires k > 0 && |slashes| == k && (forall i :: 0 <= i < k ==> slashes[i] == '/') && rest != "" && rest[0] == '?'
    ensures Run(h, h + slashes + rest) == k
    ensures CollapseRuns(h, h + slashes + rest) == h + "/" + CollapseRuns(h, rest)
  {
    var s := h + slashes + rest;
    assert s[|h|..] == slashes + rest && s[|h| + k..] == rest;
    var m := Slashes(slashes + rest);
    assert (slashes + rest)[k] == '?';
    assert m == k;
  }

  /** Dropping the literal `//?` replacement before the regex changes nothing. */
  lemma {:induction false} LiteralReplaceIsRedundant(h: string, s: string)
    requires IsHost(h)
    ensures CollapseRuns(h, ReplaceDouble(h, s)) == CollapseRuns(h, s)
    decreases |s|
  {
    if s == "" {
    } else if Run(h, s) == 0 {
      if h + "//?" <= s {
        DoubleIsRun(h, s);
      }
      ReplaceKeepsFront(h, s);
      CollapseStep(h, [s[0]] + ReplaceDouble(h, s[1..]));
      LiteralReplaceIsRedundant(h, s[1..]);
    } else {
      AtRun(h, s);
    }
  }

  lemma AtRun(h: string, s: string)
    requires IsHost(h) && Run(h, s) > 0
    ensures CollapseRuns(h, ReplaceDouble(h, s)) == CollapseRuns(h, s)
    decreases |s|, 1
  {
    RunShape(h, s);
    if Run(h, s) == 2 {
      AtDoubleRun(h, s);
    } else {
      AtOtherRun(h, s);
    }
  }

  lemma AtDoubleRun(h: string, s: string)
    requires IsHost(h) && Run(h, s) == 2 && h + "//?" <= s
    ensures CollapseRuns(h, ReplaceDouble(h, s)) == CollapseRuns(h, s)
    decreases |s|, 0
  {
    var tail, rest := s[|h| + 3..], s[|h| + 2..];
    LiteralReplaceIsRedundant(h, tail);
    assert rest[1..] == tail && rest[0] == '?';
    var after := "?" + ReplaceDouble(h, tail);
    assert after[1..] == ReplaceDouble(h, tail);
    assert h + "/?" + ReplaceDouble(h, tail) == h + "/" + after;
    CollapseAtRun(h, 1, "/", after);
    CollapseQuestion(h, after);
    CollapseQuestion(h, rest);
  }

  lemma ReplacePast(h: string, slashes: string, rest: string)
    requires IsHost(h) && ':' !in slashes && !(h + "//?" <= h + slashes + rest)
    ensures ReplaceDouble(h, h + slashes + rest) == h + slashes + ReplaceDouble(h, rest)
  {
    var s, n := h + slashes + rest, |h| + |slashes|;
    assert s[n..] == rest && s[..n] == h + slashes;
    assert forall i :: |h| <= i < n ==> s[i] == slashes[i - |h|];
    ReplaceStep(h, s);
    ReplaceCopies(h, s[1..], n - 1);
    CutAgain(s, n, ReplaceDouble(h, rest));
  }

  lemma AtOtherRun(h: string, s: string)
    requires IsHost(h) && Run(h, s) > 0 && !(h + "//?" <= s)
    ensures CollapseRuns(h, ReplaceDouble(h, s)) == CollapseRuns(h, s)
    decreases |s|, 0
  {
    var n := |h| + Run(h, s);
    RunShape(h, s);
    var slashes, rest := s[|h|..n], s[n..];
    ReplacePast(h, slashes, rest);
    LiteralReplaceIsRedundant(h, rest);
    FirstKept(h, rest);
    CollapseAtRun(h, Run(h, s), slashes, ReplaceDouble(h, rest));
    CollapseAtRun(h, Run(h, s), slashes, rest);
  }

  // ---------- No run of slashes is left ----------

  /** No suffix of s starts with the host, two or more slashes and `?`. */
  predicate NoLongRun(h: string, s: string) {
    s == "" || (Run(h, s) <= 1 && NoLongRun(h, s[1..]))
  }

  lemma {:induction false} NoColonNoRun(h: string, s: string, n: nat)
    requires IsHost(h) && n <= |s| && (forall i :: 0 <= i < n ==> s[i] != ':') && NoLongRun(h, s[n..])
    ensures NoLongRun(h, s)
  {
    if n > 0 {
      assert s[1..][n - 1..] == s[n..];
      NoRunHere(h, s);
      NoColonNoRun(h, s[1..], n - 1);
    } else {
      assert s[0..] == s;
    }
  }

  lemma {:induction false} CollapseLeavesNoLongRun(h: string, s: string)
    requires IsHost(h)
    ensures NoLongRun(h, CollapseRuns(h, s))
    decreases |s|
  {
    if s == "" {
    } else if Run(h, s) == 0 {
      CollapseLeavesNoLongRun(h, s[1..]);
      CollapseKeepsFront(h, s);
      assert ([s[0]] + CollapseRuns(h, s[1..]))[1..] == CollapseRuns(h, s[1..]);
    } else {
      var rest := s[|h| + Run(h, s)..];
      RunShape(h, s);
      CollapseLeavesNoLongRun(h, rest);
      FirstKept(h, rest);
      OneSlashRun(h, CollapseRuns(h, rest));
    }
  }

  lemma OneSlashRun(h: string, t: string)
    requires IsHost(h) && NoLongRun(h, t) && t != "" && t[0] == '?'
    ensures NoLongRun(h, h + "/" + t)
  {
    var s := h + "/" + t;
    CollapseAtRun(h, 1, "/", t);
    var tail := s[1..];
    assert tail[|h|..] == t;
    NoColonNoRun(h, tail, |h|);
  }

  /** Where there is no long run the regex changes nothing. */
  lemma {:induction false} CollapseIsIdentity(h: string, s: string)
    requires IsHost(h) && NoLongRun(h, s)
    ensures CollapseRuns(h, s) == s
    decreases |s|
  {
    if s == "" {
    } else if Run(h, s) == 0 {
      CollapseIsIdentity(h, s[1..]);
    } else {
      RunShape(h, s);
      var n := |h| + 1;
      LongRunSuffix(h, s, n);
      CollapseIsIdentity(h, s[n..]);
      assert s[|h|..n] == "/";
    }
  }

  lemma {:induction false} LongRunSuffix(h: string, s: string, n: nat)
    requires n <= |s| && NoLongRun(h, s)
    ensures NoLongRun(h, s[n..])
  {
    if n > 0 {
      assert s[1..][n - 1..] == s[n..];
      LongRunSuffix(h, s[1..], n - 1);
    } else {
      assert s[0..] == s;
    }
  }

  // ---------- Idempotence ----------

  /** Some backslash in s stands right before a c. */
  predicate HasPair(s: string, c: char) {
    |s| >= 2 && ((s[0] == '\\' && s[1] == c) || HasPair(s[1..], c))
  }

  /** Two backslashes in s stand right before a c. */
  predicate HasTriple(s: string, c: char) {
    |s| >= 3 && ((s[0] == '\\' && s[1] == '\\' && s[2] == c) || HasTriple(s[1..], c))
  }

  lemma {:induction false} UnescapeIdentity(s: string, c: char)
    requires !HasPair(s, c)
    ensures Unescape(s, c) == s
  {
    if s == "" {
    } else {
      UnescapeIdentity(s[1..], c);
    }
  }

  lemma {:induction false} UnescapeShortens(s: string, c: char)
    requires HasPair(s, c)
    ensures |Unescape(s, c)| < |s|
  {
    if s[0] == '\\' && s[1] == c {
    } else {
      UnescapeShortens(s[1..], c);
    }
  }

  /** The first character after unescaping: the same one, unless it was a backslash to drop. */
  lemma UnescapeHead(s: string, c: char)
    ensures s == "" <==> Unescape(s, c) == ""
    ensures s != "" ==> Unescape(s, c)[0] == if |s| >= 2 && s[0] == '\\' && s[1] == c then c else s[0]
  {
  }

  /** Without a triple, a pass removes every pair of its character and creates no pair and no triple of any. */
  lemma {:induction false} PassCleans(s: string, c: char, d: char)
    requires c != '\\' && d != '\\' && !HasTriple(s, c)
    ensures !HasPair(Unescape(s, c), c)
    ensures HasPair(Unescape(s, c), d) ==> HasPair(s, d)
    ensures HasTriple(Unescape(s, c), d) ==> HasTriple(s, d)
    decreases |s|
  {
    var t := Unescape(s, c);
    if s == "" {
    } else if |s| >= 2 && s[0] == '\\' && s[1] == c {
      PassCleans(s[2..], c, d);
      assert t[1..] == Unescape(s[2..], c);
      assert s[1..][1..] == s[2..];
    } else {
      PassCleans(s[1..], c, d);
      assert t[1..] == Unescape(s[1..], c);
      UnescapeHead(s[1..], c);
      if |s| >= 2 && s[0] == '\\' && s[1] == '\\' {
        assert s[1..][1..] == s[2..];
        UnescapeHead(s[2..], c);
      }
    }
  }

  /** A triple is turned into a pair by its own pass. */
  lemma {:induction false} TripleLeavesPair(s: string, c: char)
    requires c != '\\' && HasTriple(s, c)
    ensures HasPair(Unescape(s, c), c)
    decreases |s|
  {
    var t := Unescape(s, c);
    if s[0] == '\\' && s[1] == c {
      assert s[1..][1..] == s[2..];
      TripleLeavesPair(s[2..], c);
      assert t[1..] == Unescape(s[2..], c);
    } else {
      assert t[1..] == Unescape(s[1..], c);
      if s[0] == '\\' && s[1] == '\\' && s[2] == c {
        UnescapeHead(s[1..], c);
      } else {
        TripleLeavesPair(s[1..], c);
      }
    }
  }

  /** The passes of other characters keep pairs and triples. */
  lemma {:induction false} OtherPassKeeps(s: string, c: char, d: char)
    requires c != '\\' && d != '\\' && c != d
    ensures HasPair(s, d) ==> HasPair(Unescape(s, c), d)
    ensures HasTriple(s, d) ==> HasTriple(Unescape(s, c), d)
    decreases |s|
  {
    var t := Unescape(s, c);
    if s == "" {
    } else if |s| >= 2 && s[0] == '\\' && s[1] == c {
      OtherPassKeeps(s[2..], c, d);
      assert t[1..] == Unescape(s[2..], c);
      assert s[1..][1..] == s[2..] && s[1..][0] == c;
      assert HasPair(s, d) ==> HasPair(s[1..], d) && HasPair(s[2..], d);
      assert HasTriple(s, d) ==> HasTriple(s[1..], d) && HasTriple(s[2..], d);
    } else {
      OtherPassKeeps(s[1..], c, d);
      assert t[1..] == Unescape(s[1..], c);
      UnescapeHead(s[1..], c);
      if |s| >= 3 && s[0] == '\\' && s[1] == '\\' && s[2] == d {
        assert s[1..][1..] == s[2..];
        UnescapeHead(s[2..], c);
      }
    }
  }

  lemma {:induction false} PairAfter(a: string, x: string, c: char)
    requires '\\' !in a
    ensures HasPair(a + x, c) <==> HasPair(x, c)
  {
    if a == "" {
      assert a + x == x;
    } else {
      assert (a + x)[1..] == a[1..] + x && (a + x)[0] == a[0];
      PairAfter(a[1..], x, c);
    }
  }

  lemma {:induction false} CollapseKeepsPairs(h: string, s: string, c: char)
    requires IsHost(h)
    ensures HasPair(CollapseRuns(h, s), c) <==> HasPair(s, c)
    decreases |s|
  {
    if s == "" {
    } else if Run(h, s) == 0 {
      CollapseKeepsPairs(h, s[1..], c);
      FirstKept(h, s[1..]);
      CollapseStep(h, s);
      assert CollapseRuns(h, s)[1..] == CollapseRuns(h, s[1..]);
    } else {
      RunShape(h, s);
      var n := |h| + Run(h, s);
      CollapseKeepsPairs(h, s[n..], c);
      assert forall i :: |h| <= i < n ==> s[|h|..n][i - |h|] == s[i];
      PairAfter(h + s[|h|..n], s[n..], c);
      PairAfter(h + "/", CollapseRuns(h, s[n..]), c);
    }
  }

  // ---------- Whitespace ----------

  lemma {:induction false} UnescapeLast(s: string, c: char)
    ensures s != "" ==> Unescape(s, c) != "" && Unescape(s, c)[|Unescape(s, c)| - 1] == s[|s| - 1]
    decreases |s|
  {
    if |s| >= 2 && s[0] == '\\' && s[1] == c {
      UnescapeLast(s[2..], c);
    } else if s != "" {
      UnescapeLast(s[1..], c);
    }
  }

  /** t ends like s does. */
  predicate SameEnd(s: string, t: string) {
    if s == "" then t == "" else t != "" && t[|t| - 1] == s[|s| - 1]
  }

  lemma SameEndAfter(a: string, s: string, b: string, t: string)
    requires s != "" && SameEnd(s, t)
    ensures SameEnd(a + s, b + t)
  {
  }

  lemma {:induction false} CollapseLast(h: string, s: string)
    requires IsHost(h)
    ensures SameEnd(s, CollapseRuns(h, s))
    decreases |s|
  {
    if s == "" {
    } else if Run(h, s) > 0 {
      var n := |h| + Run(h, s);
      CollapseLast(h, s[n..]);
      SameEndAfter(s[..n], s[n..], h + "/", CollapseRuns(h, s[n..]));
      assert s[..n] + s[n..] == s;
    } else {
      CollapseStep(h, s);
      CollapseLast(h, s[1..]);
      if s[1..] != "" {
        SameEndAfter([s[0]], s[1..], [s[0]], CollapseRuns(h, s[1..]));
        assert [s[0]] + s[1..] == s;
      }
    }
  }

  lemma UnescapeTrimmed(s: string, c: char)
    requires Trimmed(s) && !IsSpace(c)
    ensures Trimmed(Unescape(s, c))
  {
    UnescapeHead(s, c);
    UnescapeLast(s, c);
  }

  lemma NormalizedIsTrimmed(u: string)
    ensures Trimmed(Normalize(u))
  {
    var lo, hi := StripShape(u);
    var s := Strip(u);
    UnescapeTrimmed(s, '?');
    UnescapeTrimmed(Unescape(s, '?'), '&');
    UnescapeTrimmed(Unescape(Unescape(s, '?'), '&'), '=');
    BezeqHost();
    LiteralReplaceIsRedundant(HOST, UnescapeAll(s));
    FirstKept(HOST, UnescapeAll(s));
    CollapseLast(HOST, UnescapeAll(s));
  }

  // ---------- The theorems ----------

  function Repeat(k: nat): (r: string)
    ensures |r| == k && forall i :: 0 <= i < k ==> r[i] == '/'
  {
    seq(k, _ => '/')
  }

  lemma OccurrenceIsRun(h: string, s: string, k: nat, i: nat)
    requires IsHost(h) && k > 0 && OccursAt(s, h + Repeat(k) + "?", i)
    ensures Run(h, s[i..]) == k
  {
    var w := h + Repeat(k) + "?";
    var rest := s[i + |w| - 1..];
    assert s[i + |w| - 1] == s[i..i + |w|][|w| - 1];
    assert s[i..] == s[i..i + |w|] + s[i + |w|..];
    assert s[i..] == h + Repeat(k) + rest;
    CollapseAtRun(h, k, Repeat(k), rest);
  }

  lemma NoLongRunOccurs(h: string, s: string, k: nat)
    requires IsHost(h) && NoLongRun(h, s) && k >= 2
    ensures !Contains(s, h + Repeat(k) + "?")
  {
    if i :| 0 <= i <= |s| - |h + Repeat(k) + "?"| && OccursAt(s, h + Repeat(k) + "?", i) {
      LongRunSuffix(h, s, i);
      OccurrenceIsRun(h, s, k, i);
    }
  }

  /** The result has no host followed by two or more slashes and `?`, and without the literal replacement it is the same. */
  lemma NormalizeShape(u: string)
    ensures NoLongRun(HOST, Normalize(u))
    ensures forall k: nat :: k >= 2 ==> !Contains(Normalize(u), HOST + Repeat(k) + "?")
    ensures Normalize(u) == CollapseRuns(HOST, UnescapeAll(Strip(u)))
  {
    BezeqHost();
    LiteralReplaceIsRedundant(HOST, UnescapeAll(Strip(u)));
    CollapseLeavesNoLongRun(HOST, UnescapeAll(Strip(u)));
    forall k: nat | k >= 2 ensures !Contains(Normalize(u), HOST + Repeat(k) + "?") {
      NoLongRunOccurs(HOST, Normalize(u), k);
    }
  }

  predicate NoTriples(s: string) {
    !HasTriple(s, '?') && !HasTriple(s, '&') && !HasTriple(s, '=')
  }

  predicate NoPairs(s: string) {
    !HasPair(s, '?') && !HasPair(s, '&') && !HasPair(s, '=')
  }

  lemma UnescapedHasNoPairs(s: string)
    ensures NoPairs(UnescapeAll(s)) <==> NoTriples(s)
  {
    var s1 := Unescape(s, '?');
    var s2 := Unescape(s1, '&');
    if NoTriples(s) {
      PassCleans(s, '?', '&');
      PassCleans(s, '?', '=');
      PassCleans(s1, '&', '?');
      PassCleans(s1, '&', '=');
      PassCleans(s2, '=', '?');
      PassCleans(s2, '=', '&');
    } else {
      OtherPassKeeps(s, '?', '&');
      OtherPassKeeps(s, '?', '=');
      OtherPassKeeps(s1, '&', '?');
      OtherPassKeeps(s1, '&', '=');
      OtherPassKeeps(s2, '=', '?');
      OtherPassKeeps(s2, '=', '&');
      if HasTriple(s, '?') {
        TripleLeavesPair(s, '?');
      } else if HasTriple(s, '&') {
        TripleLeavesPair(s1, '&');
      } else {
        TripleLeavesPair(s2, '=');
      }
    }
  }

  lemma UnescapeAllFixed(t: string)
    ensures if NoPairs(t) then UnescapeAll(t) == t else |UnescapeAll(t)| < |t|
  {
    if NoPairs(t) {
      UnescapeIdentity(t, '?');
      UnescapeIdentity(t, '&');
      UnescapeIdentity(t, '=');
    } else if HasPair(t, '?') {
      UnescapeShortens(t, '?');
    } else if HasPair(t, '&') {
      OtherPassKeeps(t, '?', '&');
      UnescapeShortens(Unescape(t, '?'), '&');
    } else {
      OtherPassKeeps(t, '?', '=');
      OtherPassKeeps(Unescape(t, '?'), '&', '=');
      UnescapeShortens(Unescape(Unescape(t, '?'), '&'), '=');
    }
  }

  /**
   Normalising twice is normalising once exactly for the URLs in which no `?`, `&` or `=` follows two
   backslashes: there one backslash survives each time.
   */
  lemma IdempotentExactly(u: string)
    ensures Normalize(Normalize(u)) == Normalize(u) <==> NoTriples(Strip(u))
  {
    var s, t := UnescapeAll(Strip(u)), Normalize(u);
    BezeqHost();
    NormalizeShape(u);
    NormalizeShape(t);
    NormalizedIsTrimmed(u);
    TrimmedIsStripped(t);
    CollapseKeepsPairs(HOST, s, '?');
    CollapseKeepsPairs(HOST, s, '&');
    CollapseKeepsPairs(HOST, s, '=');
    UnescapedHasNoPairs(Strip(u));
    UnescapeAllFixed(t);
    CollapseIsIdentity(HOST, t);
  }

  /** Exactly which URLs are left as they are. */
  lemma FixedExactly(u: string)
    ensures Normalize(u) == u <==> Trimmed(u) && NoPairs(u) && NoLongRun(HOST, u)
  {
    BezeqHost();
    NormalizeShape(u);
    NormalizedIsTrimmed(u);
    if Trimmed(u) {
      TrimmedIsStripped(u);
      UnescapeAllFixed(u);
      if NoLongRun(HOST, u) {
        CollapseIsIdentity(HOST, u);
      }
    }
  }
}
