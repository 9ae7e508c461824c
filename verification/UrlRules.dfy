/** archive/graph_invoice_finder.v3.9.1.py: `normalize_myinvoice_url`, said of the texts of URLs. */
module UrlRules {
  import opened Strings
  import opened UrlNormal

  /** One, or two, backslashes before a c. */
  lemma {:induction false} PairExactly(s: string, c: char)
    ensures HasPair(s, c) <==> exists i :: 0 <= i < |s| - 1 && s[i] == '\\' && s[i + 1] == c
    ensures HasTriple(s, c) <==> exists i :: 0 <= i < |s| - 2 && s[i] == '\\' && s[i + 1] == '\\' && s[i + 2] == c
  {
    if s == "" {
    } else {
      var rest := s[1..];
      PairExactly(rest, c);
      if i :| 0 <= i < |rest| - 1 && rest[i] == '\\' && rest[i + 1] == c {
        assert s[i + 1] == '\\' && s[i + 1 + 1] == c;
      }
      if i :| 0 <= i < |rest| - 2 && rest[i] == '\\' && rest[i + 1] == '\\' && rest[i + 2] == c {
        assert s[i + 1] == '\\' && s[i + 1 + 1] == '\\' && s[i + 1 + 2] == c;
      }
      assert forall i :: 0 < i < |s| ==> s[i] == rest[i - 1];
    }
  }

  /** Where a host is followed by two or more slashes and a question mark. */
  lemma {:induction false} LongRunFound(h: string, s: string) returns (i: nat, k: nat)
    requires IsHost(h) && !NoLongRun(h, s)
    ensures k >= 2 && OccursAt(s, h + Repeat(k) + "?", i)
  {
    if Run(h, s) >= 2 {
      i, k := 0, Run(h, s);
      RunShape(h, s);
      RunIsText(h, s);
    } else {
      i, k := LongRunFound(h, s[1..]);
      var w := h + Repeat(k) + "?";
      assert s[1..][i..i + |w|] == s[i + 1..i + 1 + |w|];
      i := i + 1;
    }
  }

  lemma RunIsText(h: string, s: string)
    requires Run(h, s) > 0
    ensures OccursAt(s, h + Repeat(Run(h, s)) + "?", 0)
  {
    var k := Run(h, s);
    var w := h + Repeat(k) + "?";
    assert h <= s;
    assert forall i :: 0 <= i < k ==> s[|h|..][i] == '/';
    assert forall i :: 0 <= i < k ==> s[|h| + i] == s[|h|..][i];
    assert forall i :: 0 <= i < |w| ==> s[i] == w[i];
    assert s[0..|w|] == w;
  }

  lemma LongRunExactly(s: string)
    ensures NoLongRun(HOST, s) <==>
      forall k: nat :: k >= 2 ==> !Contains(s, "://myinvoice.bezeq.co.il" + Repeat(k) + "?")
  {
    BezeqHost();
    if NoLongRun(HOST, s) {
      forall k: nat | k >= 2 ensures !Contains(s, HOST + Repeat(k) + "?") {
        NoLongRunOccurs(HOST, s, k);
      }
    } else {
      var i, k := LongRunFound(HOST, s);
      assert Contains(s, HOST + Repeat(k) + "?");
    }
  }

  // ---------- What is rewritten ----------

  predicate NoBackslash(s: string) {
    forall i :: 0 <= i < |s| ==> s[i] != '\\'
  }

  predicate NoColon(s: string) {
    forall i :: 0 <= i < |s| ==> s[i] != ':'
  }

  lemma NothingToUnescape(s: string)
    requires NoBackslash(s)
    ensures UnescapeAll(s) == s
  {
    PairExactly(s, '?');
    PairExactly(s, '&');
    PairExactly(s, '=');
    UnescapeAllFixed(s);
  }

  lemma NothingToCollapse(s: string)
    requires NoColon(s)
    ensures CollapseRuns(HOST, s) == s
  {
    BezeqHost();
    CollapseCopies(HOST, s, |s|);
    assert s[|s|..] == "" && s[..|s|] == s;
  }

  lemma CollapseHostRun(k: nat, rest: string)
    requires k > 0 && rest != "" && rest[0] == '?' && NoColon(rest)
    ensures CollapseRuns(HOST, HOST + Repeat(k) + rest) == HOST + "/" + rest
  {
    BezeqHost();
    CollapseAtRun(HOST, k, Repeat(k), rest);
    NothingToCollapse(rest);
  }

  lemma CollapseAfterScheme(scheme: string, tail: string)
    requires NoColon(scheme)
    ensures CollapseRuns(HOST, scheme + tail) == scheme + CollapseRuns(HOST, tail)
  {
    var s := scheme + tail;
    BezeqHost();
    CollapseCopies(HOST, s, |scheme|);
    assert s[..|scheme|] == scheme && s[|scheme|..] == tail;
  }

  lemma NoBackslashConcat(a: string, b: string)
    requires NoBackslash(a) && NoBackslash(b)
    ensures NoBackslash(a + b)
  {
  }

  lemma TailIsPlain(k: nat, query: string)
    requires NoBackslash(query) && NoColon(query) && (query != "" ==> !IsSpace(query[|query| - 1]))
    ensures var tail := HOST + Repeat(k) + ("?" + query);
      NoBackslash(tail) && tail != "" && !IsSpace(tail[|tail| - 1]) && NoColon("?" + query)
  {
    NoBackslashConcat("?", query);
    NoBackslashConcat(HOST, Repeat(k));
    NoBackslashConcat(HOST + Repeat(k), "?" + query);
    var rest := "?" + query;
    assert (HOST + Repeat(k) + rest)[|HOST| + k + |rest| - 1] == rest[|rest| - 1];
  }

  lemma PlainUrl(scheme: string, tail: string)
    requires scheme != "" && !IsSpace(scheme[0]) && NoBackslash(scheme)
    requires tail != "" && !IsSpace(tail[|tail| - 1]) && NoBackslash(tail)
    ensures UnescapeAll(Strip(scheme + tail)) == scheme + tail
  {
    NoBackslashConcat(scheme, tail);
    TrimmedIsStripped(scheme + tail);
    NothingToUnescape(scheme + tail);
  }

  /** Any number of slashes between the host and the question mark becomes one. */
  lemma SlashesBecomeOne(scheme: string, k: nat, query: string)
    requires k > 0 && scheme != "" && !IsSpace(scheme[0]) && NoColon(scheme) && NoBackslash(scheme)
    requires NoBackslash(query) && NoColon(query) && (query != "" ==> !IsSpace(query[|query| - 1]))
    ensures Normalize(scheme + ("://myinvoice.bezeq.co.il" + Repeat(k) + ("?" + query))) ==
      scheme + ("://myinvoice.bezeq.co.il" + "/" + ("?" + query))
  {
    var rest := "?" + query;
    var tail := HOST + Repeat(k) + rest;
    TailIsPlain(k, query);
    PlainUrl(scheme, tail);
    NormalizeShape(scheme + tail);
    CollapseAfterScheme(scheme, tail);
    CollapseHostRun(k, rest);
  }

  lemma {:induction false} UnescapeAfter(a: string, x: string, d: char)
    requires NoBackslash(a)
    ensures Unescape(a + x, d) == a + Unescape(x, d)
  {
    if a == "" {
      assert a + x == x;
    } else {
      assert (a + x)[1..] == a[1..] + x;
      UnescapeAfter(a[1..], x, d);
    }
  }

  lemma UnescapeIdentityPlain(s: string, d: char)
    requires NoBackslash(s)
    ensures Unescape(s, d) == s
  {
    PairExactly(s, d);
    UnescapeIdentity(s, d);
  }

  lemma UnescapePair(c: char, b: string, d: char)
    requires NoBackslash(b) && c != '\\'
    ensures Unescape(['\\', c] + b, d) == if c == d then [c] + b else ['\\', c] + b
  {
    var u := ['\\', c] + b;
    assert u[2..] == b && u[1..] == [c] + b;
    UnescapeIdentityPlain(b, d);
    UnescapeIdentityPlain([c] + b, d);
    assert ['\\'] + ([c] + b) == u;
  }

  lemma EscapedPass(a: string, c: char, b: string, d: char)
    requires NoBackslash(a) && NoBackslash(b) && c != '\\'
    ensures Unescape(a + (['\\', c] + b), d) == a + if c == d then [c] + b else ['\\', c] + b
  {
    UnescapeAfter(a, ['\\', c] + b, d);
    UnescapePair(c, b, d);
  }

  lemma AllPasses(a: string, c: char, b: string)
    requires (c == '?' || c == '&' || c == '=') && NoBackslash(a) && NoBackslash(b)
    ensures UnescapeAll(a + (['\\', c] + b)) == a + ([c] + b)
  {
    EscapedPass(a, c, b, '?');
    EscapedPass(a, c, b, '&');
    EscapedPass(a, c, b, '=');
    NoBackslashConcat([c], b);
    NoBackslashConcat(a, [c] + b);
    UnescapeIdentityPlain(a + ([c] + b), '?');
    UnescapeIdentityPlain(a + ([c] + b), '&');
    UnescapeIdentityPlain(a + ([c] + b), '=');
  }

  /** A backslash before `?`, `&` or `=` is dropped. */
  lemma EscapeIsDropped(a: string, c: char, b: string)
    requires (c == '?' || c == '&' || c == '=') && NoBackslash(a) && NoBackslash(b) && NoColon(a) && NoColon(b)
    requires (a != "" ==> !IsSpace(a[0])) && (b != "" ==> !IsSpace(b[|b| - 1]))
    ensures Normalize(a + (['\\', c] + b)) == a + ([c] + b)
  {
    var u := a + (['\\', c] + b);
    assert Trimmed(u);
    TrimmedIsStripped(u);
    AllPasses(a, c, b);
    NormalizeShape(u);
    assert NoColon([c] + b);
    assert NoColon(a + ([c] + b));
    NothingToCollapse(a + ([c] + b));
  }

  /** Space around a URL does not matter. */
  lemma PaddedUrl(u: string)
    ensures Normalize(u) == Normalize(Strip(u))
  {
    var lo, hi := StripShape(u);
    TrimmedIsStripped(Strip(u));
  }
}
