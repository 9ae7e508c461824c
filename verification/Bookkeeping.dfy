/**
 archive/graph_invoice_finder.v3.7.4.py: candidates collected over the search strategies, and the rows
 and counters kept while they are processed.

 What the server delivers and what becomes of each attachment and link are inputs; so are a message's
 date test and its confidence (see module Confidence).
 */
module Bookkeeping {
  import opened Strings

  type Id = string

  /** What becomes of one attachment or link: a saved entry, a rejected entry, or no entry. */
  datatype Fate = IsSaved | IsRejected | Silent

  /** A message as delivered; an empty id stands for a missing one. */
  datatype Message = Message(id: Id, inWindow: bool, confidence: int, fates: seq<Fate>)

  /** One search: the pages the server has for it, in order. */
  datatype Strategy = Strategy(name: string, pages: seq<seq<Message>>)

  /** A message stamped with the strategy that fetched it. */
  datatype Stamped = Stamped(message: Message, strategy: string)

  datatype Row = Row(id: Id, strategy: string, confidence: int)

  // ---------- run_strategy ----------

  function Flatten(pages: seq<seq<Message>>): seq<Message> {
    if pages == [] then [] else Flatten(pages[..|pages| - 1]) + pages[|pages| - 1]
  }

  /** The messages of the first `maxPages` pages. */
  function Fetched(s: Strategy, maxPages: nat): seq<Message> {
    Flatten(if |s.pages| <= maxPages then s.pages else s.pages[..maxPages])
  }

  function Stamp(ms: seq<Message>, name: string): (r: seq<Stamped>)
    ensures |r| == |ms| && forall i :: 0 <= i < |ms| ==> r[i] == Stamped(ms[i], name)
  {
    seq(|ms|, i requires 0 <= i < |ms| => Stamped(ms[i], name))
  }

  method RunStrategy(s: Strategy, maxPages: nat) returns (r: seq<Stamped>)
    ensures r == Stamp(Fetched(s, maxPages), s.name)
  {
    var out: seq<Message> := [];
    var pages := 0;
    while pages < |s.pages| && pages < maxPages
      invariant pages <= |s.pages| && pages <= maxPages
      invariant out == Flatten(s.pages[..pages])
    {
      assert s.pages[..pages + 1][..pages] == s.pages[..pages];
      out := out + s.pages[pages];
      pages := pages + 1;
    }
    assert s.pages[..|s.pages|] == s.pages;
    r := [];
    for i := 0 to |out|
      invariant |r| == i && forall j :: 0 <= j < i ==> r[j] == Stamped(out[j], s.name)
    {
      r := r + [Stamped(out[i], s.name)];
    }
  }

  // ---------- Candidates ----------

  predicate HasMessage(ms: seq<Message>, id: Id) {
    exists i :: 0 <= i < |ms| && ms[i].id == id
  }

  /** m is the first message with its id in ms. */
  ghost predicate IsFirstIn(ms: seq<Message>, m: Message) {
    exists i :: 0 <= i < |ms| && ms[i] == m && forall j :: 0 <= j < i ==> ms[j].id != m.id
  }

  /** c comes from the first strategy that fetched its id, and is that strategy's first message with it. */
  ghost predicate IsFirstFetch(ss: seq<Strategy>, maxPages: nat, c: Stamped) {
    exists k :: 0 <= k < |ss| && c.strategy == ss[k].name && IsFirstIn(Fetched(ss[k], maxPages), c.message)
      && forall j :: 0 <= j < k ==> !HasMessage(Fetched(ss[j], maxPages), c.message.id)
  }

  predicate FetchedBy(ss: seq<Strategy>, maxPages: nat, id: Id) {
    exists k :: 0 <= k < |ss| && HasMessage(Fetched(ss[k], maxPages), id)
  }

  /** The candidate table holds exactly the fetched ids, once each, with their first fetch. */
  ghost predicate IsCandidateTable(ss: seq<Strategy>, maxPages: nat, order: seq<Id>, seen: map<Id, Stamped>) {
    && NoRepeats(order) && (forall id :: id in seen <==> id in order)
    && (forall id :: id in seen <==> id != "" && FetchedBy(ss, maxPages, id))
    && forall id :: id in seen ==> seen[id].message.id == id && IsFirstFetch(ss, maxPages, seen[id])
  }

  function CandidateTotal(ss: seq<Strategy>, maxPages: nat, name: string): nat {
    if ss == [] then 0
    else
      var last := ss[|ss| - 1];
      CandidateTotal(ss[..|ss| - 1], maxPages, name) + if last.name == name then |Fetched(last, maxPages)| else 0
  }

  function Get(counts: map<string, nat>, name: string): nat {
    if name in counts then counts[name] else 0
  }

  /** The `for strat in STRATEGIES` loop; `order` is the insertion order of the dictionary `seen`. */
  method CollectCandidates(ss: seq<Strategy>, maxPages: nat)
    returns (order: seq<Id>, seen: map<Id, Stamped>, counts: map<string, nat>)
    ensures IsCandidateTable(ss, maxPages, order, seen)
    ensures forall name :: Get(counts, name) == CandidateTotal(ss, maxPages, name)
  {
    order, seen, counts := [], map[], map[];
    for k := 0 to |ss|
      invariant IsCandidateTable(ss[..k], maxPages, order, seen)
      invariant forall name :: Get(counts, name) == CandidateTotal(ss[..k], maxPages, name)
    {
      var s := ss[k];
      assert ss[..k + 1] == ss[..k] + [s] && ss[..k + 1][..k] == ss[..k];
      var msgs := RunStrategy(s, maxPages);
      counts := counts[s.name := Get(counts, s.name) + |msgs|];
      order, seen := AddMessages(ss[..k], s, maxPages, msgs, order, seen);
    }
    assert ss[..|ss|] == ss;
  }

  /** The inner loop: only an id not seen before is entered. */
  method AddMessages(ghost before: seq<Strategy>, ghost s: Strategy, ghost maxPages: nat, msgs: seq<Stamped>,
                     order0: seq<Id>, seen0: map<Id, Stamped>) returns (order: seq<Id>, seen: map<Id, Stamped>)
    requires IsCandidateTable(before, maxPages, order0, seen0)
    requires msgs == Stamp(Fetched(s, maxPages), s.name)
    ensures IsCandidateTable(before + [s], maxPages, order, seen)
  {
    order, seen := order0, seen0;
    ghost var ms := Fetched(s, maxPages);
    assert ms[..0] == [];
    EnterStart(before, maxPages, s.name, order0, seen0);
    for i := 0 to |msgs|
      invariant Entering(seen0, s.name, ms[..i], order, seen)
    {
      var m := msgs[i];
      var mid := m.message.id;
      if mid == "" || mid in seen {
        EnterKnown(seen0, s.name, ms, i, order, seen);
      } else {
        EnterNew(seen0, s.name, ms, i, order, seen);
        seen := seen[mid := m];
        order := order + [mid];
      }
    }
    assert ms[..|msgs|] == ms;
    TableExtends(before, s, maxPages, order0, seen0, order, seen);
  }

  /** The table while one strategy's messages are entered: `prefix` has been looked at. */
  ghost predicate Entering(seen0: map<Id, Stamped>, name: string, prefix: seq<Message>, order: seq<Id>, seen: map<Id, Stamped>) {
    && NoRepeats(order) && (forall id :: id in seen <==> id in order)
    && (forall id :: id in seen <==> id in seen0 || (id != "" && HasMessage(prefix, id)))
    && (forall id :: id in seen0 ==> id in seen && seen[id] == seen0[id])
    && (forall id :: id in seen && id !in seen0 ==>
          seen[id].message.id == id && seen[id].strategy == name && IsFirstIn(prefix, seen[id].message))
  }

  lemma EnterStart(before: seq<Strategy>, maxPages: nat, name: string, order: seq<Id>, seen: map<Id, Stamped>)
    requires IsCandidateTable(before, maxPages, order, seen)
    ensures Entering(seen, name, [], order, seen)
  {
  }

  lemma EnterNew(seen0: map<Id, Stamped>, name: string, ms: seq<Message>, i: nat, order: seq<Id>, seen: map<Id, Stamped>)
    requires i < |ms| && Entering(seen0, name, ms[..i], order, seen) && ms[i].id != "" && ms[i].id !in seen
    ensures Entering(seen0, name, ms[..i + 1], order + [ms[i].id], seen[ms[i].id := Stamped(ms[i], name)])
  {
    FirstInPrefix(ms, i);
  }

  lemma EnterKnown(seen0: map<Id, Stamped>, name: string, ms: seq<Message>, i: nat, order: seq<Id>, seen: map<Id, Stamped>)
    requires i < |ms| && Entering(seen0, name, ms[..i], order, seen) && (ms[i].id == "" || ms[i].id in seen)
    ensures Entering(seen0, name, ms[..i + 1], order, seen)
  {
    FirstInPrefix(ms, i);
  }

  /** What is first in a prefix stays first, and a message new to the prefix is first with it. */
  lemma FirstInPrefix(ms: seq<Message>, i: nat)
    requires i < |ms|
    ensures forall m :: IsFirstIn(ms[..i], m) ==> IsFirstIn(ms[..i + 1], m)
    ensures !HasMessage(ms[..i], ms[i].id) ==> IsFirstIn(ms[..i + 1], ms[i])
    ensures forall id :: HasMessage(ms[..i + 1], id) <==> HasMessage(ms[..i], id) || id == ms[i].id
  {
    var a, b := ms[..i], ms[..i + 1];
    assert b == a + [ms[i]];
    forall m | IsFirstIn(a, m) ensures IsFirstIn(b, m) {
      var k :| 0 <= k < |a| && a[k] == m && forall j :: 0 <= j < k ==> a[j].id != m.id;
      assert b[k] == m;
    }
    assert b[i] == ms[i];
    assert forall j :: 0 <= j < i ==> b[j] == a[j];
    forall id ensures HasMessage(b, id) <==> HasMessage(a, id) || id == ms[i].id {
      if HasMessage(a, id) {
        var k :| 0 <= k < |a| && a[k].id == id;
        assert b[k].id == id;
      }
      if HasMessage(b, id) {
        var k :| 0 <= k < |b| && b[k].id == id;
        assert k < i ==> a[k].id == id;
      }
    }
  }

  lemma FetchedByOneMore(before: seq<Strategy>, s: Strategy, maxPages: nat, id: Id)
    ensures FetchedBy(before + [s], maxPages, id) <==> FetchedBy(before, maxPages, id) || HasMessage(Fetched(s, maxPages), id)
  {
    var all := before + [s];
    if HasMessage(Fetched(s, maxPages), id) {
      assert HasMessage(Fetched(all[|before|], maxPages), id);
    }
    if k :| 0 <= k < |before| && HasMessage(Fetched(before[k], maxPages), id) {
      assert HasMessage(Fetched(all[k], maxPages), id);
    }
  }

  lemma FirstFetchStays(before: seq<Strategy>, s: Strategy, maxPages: nat, c: Stamped)
    requires IsFirstFetch(before, maxPages, c)
    ensures IsFirstFetch(before + [s], maxPages, c)
  {
    var all := before + [s];
    var k :| 0 <= k < |before| && c.strategy == before[k].name && IsFirstIn(Fetched(before[k], maxPages), c.message)
      && forall j :: 0 <= j < k ==> !HasMessage(Fetched(before[j], maxPages), c.message.id);
    assert c.strategy == all[k].name && forall j :: 0 <= j < k ==> all[j] == before[j];
  }

  lemma NewFirstFetch(before: seq<Strategy>, s: Strategy, maxPages: nat, c: Stamped)
    requires !FetchedBy(before, maxPages, c.message.id)
    requires c.strategy == s.name && IsFirstIn(Fetched(s, maxPages), c.message)
    ensures IsFirstFetch(before + [s], maxPages, c)
  {
    var all := before + [s];
    assert c.strategy == all[|before|].name && forall j :: 0 <= j < |before| ==> all[j] == before[j];
  }

  lemma TableExtends(before: seq<Strategy>, s: Strategy, maxPages: nat, order0: seq<Id>, seen0: map<Id, Stamped>,
                     order: seq<Id>, seen: map<Id, Stamped>)
    requires IsCandidateTable(before, maxPages, order0, seen0)
    requires Entering(seen0, s.name, Fetched(s, maxPages), order, seen)
    ensures IsCandidateTable(before + [s], maxPages, order, seen)
  {
    forall id ensures FetchedBy(before + [s], maxPages, id) <==>
        FetchedBy(before, maxPages, id) || HasMessage(Fetched(s, maxPages), id) {
      FetchedByOneMore(before, s, maxPages, id);
    }
    forall id | id in seen ensures IsFirstFetch(before + [s], maxPages, seen[id]) {
      if id in seen0 {
        FirstFetchStays(before, s, maxPages, seen0[id]);
      } else {
        NewFirstFetch(before, s, maxPages, seen[id]);
      }
    }
  }

  // ---------- Rows ----------

  predicate AnySaved(m: Message) {
    exists i :: 0 <= i < |m.fates| && m.fates[i].IsSaved?
  }

  /** What a message needs to become a row. */
  predicate Qualifies(m: Message, minConfidence: int) {
    m.inWindow && m.confidence >= minConfidence && AnySaved(m)
  }

  function RowTest(minConfidence: int): Message -> bool {
    (m: Message) => Qualifies(m, minConfidence)
  }

  function NonmatchTest(minConfidence: int, keepNonmatches: bool): Message -> bool {
    (m: Message) => keepNonmatches && m.inWindow && !Qualifies(m, minConfidence)
  }

  function RowFor(c: Stamped): Row {
    Row(c.message.id, c.strategy, c.message.confidence)
  }

  function RowCount(rows: seq<Row>, name: string): nat {
    if rows == [] then 0
    else RowCount(rows[..|rows| - 1], name) + if rows[|rows| - 1].strategy == name then 1 else 0
  }

  function RowIds(rows: seq<Row>): (r: seq<Id>)
    ensures |r| == |rows| && forall i :: 0 <= i < |rows| ==> r[i] == rows[i].id
  {
    seq(|rows|, i requires 0 <= i < |rows| => rows[i].id)
  }

  datatype Books = Books(rows: seq<Row>, nonmatches: seq<Row>, savedLog: seq<Id>, rejectedLog: seq<Id>,
                         finalCounts: map<string, nat>)

  /** The ids whose messages satisfy p, among those in order. */
  ghost predicate AreExactly(ids: seq<Id>, order: seq<Id>, seen: map<Id, Stamped>, p: Message -> bool) {
    NoRepeats(ids) && forall id :: id in ids <==> id in order && id in seen && p(seen[id].message)
  }

  ghost predicate RowsRight(order: seq<Id>, seen: map<Id, Stamped>, minConfidence: int, rows: seq<Row>) {
    && AreExactly(RowIds(rows), order, seen, RowTest(minConfidence))
    && forall r :: r in rows ==> r.id in seen && r == RowFor(seen[r.id])
  }

  ghost predicate Balanced(order: seq<Id>, seen: map<Id, Stamped>, minConfidence: int, keepNonmatches: bool, b: Books) {
    && RowsRight(order, seen, minConfidence, b.rows)
    && (forall id :: id in b.savedLog <==> id in RowIds(b.rows))
    && AreExactly(RowIds(b.nonmatches), order, seen, NonmatchTest(minConfidence, keepNonmatches))
    && (forall name :: Get(b.finalCounts, name) == RowCount(b.rows, name))
  }

  /** Attachments and links of one message, in order; saved ones are logged under its id. */
  method ProcessFates(m: Message, savedLog: seq<Id>, rejectedLog: seq<Id>)
    returns (saved: seq<Id>, rejected: seq<Id>, savedAny: bool)
    ensures savedAny == AnySaved(m)
    ensures savedLog <= saved && forall i :: |savedLog| <= i < |saved| ==> saved[i] == m.id
    ensures savedAny <==> |saved| > |savedLog|
    ensures rejectedLog <= rejected && forall i :: |rejectedLog| <= i < |rejected| ==> rejected[i] == m.id
  {
    saved, rejected, savedAny := savedLog, rejectedLog, false;
    for i := 0 to |m.fates|
      invariant savedAny <==> exists j :: 0 <= j < i && m.fates[j].IsSaved?
      invariant savedLog <= saved && forall j :: |savedLog| <= j < |saved| ==> saved[j] == m.id
      invariant savedAny <==> |saved| > |savedLog|
      invariant rejectedLog <= rejected && forall j :: |rejectedLog| <= j < |rejected| ==> rejected[j] == m.id
    {
      match m.fates[i]
      case IsSaved =>
        saved := saved + [m.id];
        savedAny := true;
      case IsRejected =>
        rejected := rejected + [m.id];
      case Silent =>
    }
  }

  /** The processing loop of `main`. */
  method ProcessCandidates(order: seq<Id>, seen: map<Id, Stamped>, minConfidence: int, keepNonmatches: bool)
    returns (b: Books)
    requires NoRepeats(order) && (forall id :: id in seen <==> id in order)
    requires forall id :: id in seen ==> seen[id].message.id == id
    ensures Balanced(order, seen, minConfidence, keepNonmatches, b)
  {
    b := Books([], [], [], [], map[]);
    StartsBalanced(order[..0], seen, minConfidence, keepNonmatches, b);
    for i := 0 to |order|
      invariant Balanced(order[..i], seen, minConfidence, keepNonmatches, b)
    {
      var mid := order[i];
      assert order[..i + 1] == order[..i] + [mid] && mid !in order[..i];
      var c := seen[mid];
      var m := c.message;
      ghost var b0 := b;
      if !m.inWindow {
        OneMoreOutside(order, i, seen, minConfidence, keepNonmatches, b);
        continue;
      }
      if m.confidence < minConfidence {
        if keepNonmatches {
          b := b.(nonmatches := b.nonmatches + [RowFor(c)]);
        }
        OneMoreNonmatch(order, i, seen, minConfidence, keepNonmatches, b0, b);
        continue;
      }
      var saved, rejected, savedAny := ProcessFates(m, b.savedLog, b.rejectedLog);
      b := b.(savedLog := saved, rejectedLog := rejected);
      if savedAny {
        b := b.(rows := b.rows + [RowFor(c)], finalCounts := b.finalCounts[c.strategy := Get(b.finalCounts, c.strategy) + 1]);
        OneMoreRow(order, i, seen, minConfidence, keepNonmatches, b0, b);
      } else {
        assert saved == b0.savedLog;
        if keepNonmatches {
          b := b.(nonmatches := b.nonmatches + [RowFor(c)]);
        }
        OneMoreNonmatch(order, i, seen, minConfidence, keepNonmatches, b0, b);
      }
    }
    assert order[..|order|] == order;
  }

  lemma StartsBalanced(order: seq<Id>, seen: map<Id, Stamped>, minConfidence: int, keep: bool, b: Books)
    requires order == [] && b == Books([], [], [], [], map[])
    ensures Balanced(order, seen, minConfidence, keep, b)
  {
  }

  lemma OneMoreOutside(order: seq<Id>, i: nat, seen: map<Id, Stamped>, minConfidence: int, keep: bool, b: Books)
    requires i < |order| && order[i] in seen && order[i] !in order[..i] && !seen[order[i]].message.inWindow
    requires Balanced(order[..i], seen, minConfidence, keep, b)
    ensures Balanced(order[..i + 1], seen, minConfidence, keep, b)
  {
    assert order[..i + 1] == order[..i] + [order[i]];
  }

  lemma OneMoreNonmatch(order: seq<Id>, i: nat, seen: map<Id, Stamped>, minConfidence: int, keep: bool, b0: Books, b: Books)
    requires i < |order| && order[i] in seen && order[i] !in order[..i] && seen[order[i]].message.id == order[i]
    requires Balanced(order[..i], seen, minConfidence, keep, b0)
    requires seen[order[i]].message.inWindow && !Qualifies(seen[order[i]].message, minConfidence)
    requires b.rows == b0.rows && b.savedLog == b0.savedLog && b.finalCounts == b0.finalCounts
    requires b.nonmatches == if keep then b0.nonmatches + [RowFor(seen[order[i]])] else b0.nonmatches
    ensures Balanced(order[..i + 1], seen, minConfidence, keep, b)
  {
    assert order[..i + 1] == order[..i] + [order[i]];
    assert keep ==> RowIds(b.nonmatches) == RowIds(b0.nonmatches) + [order[i]];
  }

  lemma OneMoreRow(order: seq<Id>, i: nat, seen: map<Id, Stamped>, minConfidence: int, keep: bool, b0: Books, b: Books)
    requires i < |order| && order[i] in seen && order[i] !in order[..i] && seen[order[i]].message.id == order[i]
    requires Balanced(order[..i], seen, minConfidence, keep, b0) && Qualifies(seen[order[i]].message, minConfidence)
    requires b.rows == b0.rows + [RowFor(seen[order[i]])] && b.nonmatches == b0.nonmatches
    requires b0.savedLog < b.savedLog && forall j :: |b0.savedLog| <= j < |b.savedLog| ==> b.savedLog[j] == order[i]
    requires var name := seen[order[i]].strategy; b.finalCounts == b0.finalCounts[name := Get(b0.finalCounts, name) + 1]
    ensures Balanced(order[..i + 1], seen, minConfidence, keep, b)
  {
    var id := order[i];
    assert order[..i + 1] == order[..i] + [id];
    RowAdded(order[..i], id, seen, minConfidence, b0.rows);
    LogAdded(b0.savedLog, b.savedLog, id, b0.rows, RowFor(seen[id]));
    CountAdded(b0.rows, RowFor(seen[id]), b0.finalCounts);
    NotANonmatch(RowIds(b.nonmatches), order[..i], id, seen, NonmatchTest(minConfidence, keep));
  }

  lemma CountAdded(rows: seq<Row>, r: Row, counts: map<string, nat>)
    requires forall name :: Get(counts, name) == RowCount(rows, name)
    ensures forall name :: Get(counts[r.strategy := Get(counts, r.strategy) + 1], name) == RowCount(rows + [r], name)
  {
    assert (rows + [r])[..|rows|] == rows;
  }

  lemma NotANonmatch(ids: seq<Id>, order: seq<Id>, id: Id, seen: map<Id, Stamped>, p: Message -> bool)
    requires AreExactly(ids, order, seen, p) && (id in seen ==> !p(seen[id].message))
    ensures AreExactly(ids, order + [id], seen, p)
  {
  }

  lemma RowAdded(order: seq<Id>, id: Id, seen: map<Id, Stamped>, minConfidence: int, rows: seq<Row>)
    requires RowsRight(order, seen, minConfidence, rows) && id !in order && id in seen
    requires Qualifies(seen[id].message, minConfidence) && seen[id].message.id == id
    ensures RowsRight(order + [id], seen, minConfidence, rows + [RowFor(seen[id])])
  {
    assert RowIds(rows + [RowFor(seen[id])]) == RowIds(rows) + [id];
  }

  lemma LogAdded(log: seq<Id>, log': seq<Id>, id: Id, rows: seq<Row>, r: Row)
    requires (forall x :: x in log <==> x in RowIds(rows)) && r.id == id
    requires log < log' && forall j :: |log| <= j < |log'| ==> log'[j] == id
    ensures forall x :: x in log' <==> x in RowIds(rows + [r])
  {
    assert RowIds(rows + [r]) == RowIds(rows) + [id];
    assert log' == log + log'[|log|..];
    assert log'[|log|] == id;
  }

  // ---------- The summary ----------

  function SummaryTotal(names: seq<string>, counts: map<string, nat>): nat {
    if names == [] then 0 else Get(counts, names[0]) + SummaryTotal(names[1..], counts)
  }

  function CountIn(names: seq<string>, rows: seq<Row>): nat {
    if names == [] then 0 else RowCount(rows, names[0]) + CountIn(names[1..], rows)
  }

  lemma {:induction false} SummaryIsCount(names: seq<string>, counts: map<string, nat>, rows: seq<Row>)
    requires forall name :: Get(counts, name) == RowCount(rows, name)
    ensures SummaryTotal(names, counts) == CountIn(names, rows)
  {
    if names == [] {
    } else {
      SummaryIsCount(names[1..], counts, rows);
    }
  }

  lemma {:induction false} CountInDrop(names: seq<string>, rows: seq<Row>, r: Row)
    requires NoRepeats(names)
    ensures CountIn(names, rows + [r]) == CountIn(names, rows) + if r.strategy in names then 1 else 0
  {
    if names == [] {
    } else {
      CountInDrop(names[1..], rows, r);
      assert (rows + [r])[..|rows|] == rows;
      assert names == [names[0]] + names[1..];
      assert names[0] == r.strategy ==> r.strategy !in names[1..];
    }
  }

  lemma {:induction false} CountsAddUp(names: seq<string>, rows: seq<Row>)
    requires NoRepeats(names) && forall r :: r in rows ==> r.strategy in names
    ensures CountIn(names, rows) == |rows|
  {
    if rows == [] {
      NoRowsNoCount(names);
    } else {
      var init, r := rows[..|rows| - 1], rows[|rows| - 1];
      assert rows == init + [r];
      CountsAddUp(names, init);
      CountInDrop(names, init, r);
    }
  }

  lemma {:induction false} NoRowsNoCount(names: seq<string>)
    ensures CountIn(names, []) == 0
  {
    if names == [] {
    } else {
      NoRowsNoCount(names[1..]);
    }
  }

  function Names(ss: seq<Strategy>): (r: seq<string>)
    ensures |r| == |ss| && forall i :: 0 <= i < |ss| ==> r[i] == ss[i].name
  {
    seq(|ss|, i requires 0 <= i < |ss| => ss[i].name)
  }

  /**
   The books of a finished run: row ids are distinct and are exactly the ids with a saved file; each row
   carries the first strategy in list order whose fetched pages held its id; and with distinct strategy
   names the printed final counts add up to the number of rows.
   */
  lemma BooksBalance(ss: seq<Strategy>, maxPages: nat, order: seq<Id>, seen: map<Id, Stamped>,
                     minConfidence: int, keep: bool, b: Books)
    requires IsCandidateTable(ss, maxPages, order, seen) && Balanced(order, seen, minConfidence, keep, b)
    ensures NoRepeats(RowIds(b.rows)) && forall id :: id in b.savedLog <==> id in RowIds(b.rows)
    ensures forall r :: r in b.rows ==> r.id in seen && r == RowFor(seen[r.id]) && IsFirstFetch(ss, maxPages, seen[r.id])
    ensures NoRepeats(Names(ss)) ==> SummaryTotal(Names(ss), b.finalCounts) == |b.rows|
  {
    forall r | r in b.rows ensures r.strategy in Names(ss) {
      var c := seen[r.id];
      var k :| 0 <= k < |ss| && c.strategy == ss[k].name && IsFirstIn(Fetched(ss[k], maxPages), c.message)
        && forall j :: 0 <= j < k ==> !HasMessage(Fetched(ss[j], maxPages), c.message.id);
      assert Names(ss)[k] == r.strategy;
    }
    if NoRepeats(Names(ss)) {
      SummaryIsCount(Names(ss), b.finalCounts, b.rows);
      CountsAddUp(Names(ss), b.rows);
    }
  }

  /** The two loops of `main` together. */
  method Run(ss: seq<Strategy>, maxPages: nat, minConfidence: int, keepNonmatches: bool)
    returns (b: Books, order: seq<Id>, seen: map<Id, Stamped>, counts: map<string, nat>)
    ensures IsCandidateTable(ss, maxPages, order, seen)
    ensures forall name :: Get(counts, name) == CandidateTotal(ss, maxPages, name)
    ensures Balanced(order, seen, minConfidence, keepNonmatches, b)
    ensures NoRepeats(Names(ss)) ==> SummaryTotal(Names(ss), b.finalCounts) == |b.rows|
  {
    order, seen, counts := CollectCandidates(ss, maxPages);
    b := ProcessCandidates(order, seen, minConfidence, keepNonmatches);
    BooksBalance(ss, maxPages, order, seen, minConfidence, keepNonmatches, b);
  }

  // ---------- What the tables say of messages ----------

  function MessagesBefore(pages: seq<seq<Message>>, k: nat): nat
    requires k <= |pages|
  {
    if k == 0 then 0 else MessagesBefore(pages, k - 1) + |pages[k - 1]|
  }

  lemma {:induction false} FlattenExactly(pages: seq<seq<Message>>, k: nat, j: nat)
    requires k < |pages| && j < |pages[k]|
    ensures |Flatten(pages)| == MessagesBefore(pages, |pages|)
    ensures MessagesBefore(pages, k) + j < |Flatten(pages)| && Flatten(pages)[MessagesBefore(pages, k) + j] == pages[k][j]
  {
    var n := |pages| - 1;
    var init := pages[..n];
    FlattenLength(init);
    BeforeIsLocal(pages, n, n);
    BeforeIsLocal(pages, n, k);
    if k < n {
      FlattenExactly(init, k, j);
    }
  }

  lemma {:induction false} FlattenLength(pages: seq<seq<Message>>)
    ensures |Flatten(pages)| == MessagesBefore(pages, |pages|)
  {
    if pages == [] {
    } else {
      var n := |pages| - 1;
      FlattenLength(pages[..n]);
      BeforeIsLocal(pages, n, n);
    }
  }

  lemma {:induction false} BeforeIsLocal(pages: seq<seq<Message>>, n: nat, k: nat)
    requires k <= n <= |pages|
    ensures MessagesBefore(pages[..n], k) == MessagesBefore(pages, k)
  {
    if k == 0 {
    } else {
      BeforeIsLocal(pages, n, k - 1);
    }
  }

  /** A strategy delivers the messages of its first `maxPages` pages, page by page, and no others. */
  lemma FetchedExactly(s: Strategy, maxPages: nat, k: nat, j: nat)
    ensures |Fetched(s, maxPages)| == MessagesBefore(s.pages, if |s.pages| <= maxPages then |s.pages| else maxPages)
    ensures k < |s.pages| && k < maxPages && j < |s.pages[k]| ==>
      MessagesBefore(s.pages, k) + j < |Fetched(s, maxPages)|
      && Fetched(s, maxPages)[MessagesBefore(s.pages, k) + j] == s.pages[k][j]
  {
    var n := if |s.pages| <= maxPages then |s.pages| else maxPages;
    var pages := s.pages[..n];
    assert |s.pages| <= maxPages ==> pages == s.pages;
    FlattenLength(pages);
    BeforeIsLocal(s.pages, n, n);
    if k < |s.pages| && k < maxPages && j < |s.pages[k]| {
      BeforeIsLocal(s.pages, n, k);
      FlattenExactly(pages, k, j);
    }
  }

  /** Counters add up over the strategies, also over several with one name. */
  lemma {:induction false} CountersAdd(a: seq<Strategy>, b: seq<Strategy>, maxPages: nat, name: string)
    ensures CandidateTotal(a + b, maxPages, name) == CandidateTotal(a, maxPages, name) + CandidateTotal(b, maxPages, name)
  {
    if b == [] {
      assert a + b == a;
    } else {
      var n := |b| - 1;
      assert (a + b)[..|a| + n] == a + b[..n];
      CountersAdd(a, b[..n], maxPages, name);
    }
  }

  /** Among strategies with different names each one's counter is the number of messages it delivered. */
  lemma {:induction false} CounterOfStrategy(ss: seq<Strategy>, maxPages: nat, k: nat)
    requires k < |ss| && forall i, j :: 0 <= i < j < |ss| ==> ss[i].name != ss[j].name
    ensures CandidateTotal(ss, maxPages, ss[k].name) == |Fetched(ss[k], maxPages)|
  {
    var n := |ss| - 1;
    if k == n {
      NoSuchStrategy(ss[..n], maxPages, ss[n].name);
    } else {
      CounterOfStrategy(ss[..n], maxPages, k);
    }
  }

  lemma {:induction false} NoSuchStrategy(ss: seq<Strategy>, maxPages: nat, name: string)
    requires forall i :: 0 <= i < |ss| ==> ss[i].name != name
    ensures CandidateTotal(ss, maxPages, name) == 0
  {
    if ss == [] {
    } else {
      NoSuchStrategy(ss[..|ss| - 1], maxPages, name);
    }
  }

  function RowPositions(rows: seq<Row>, name: string): set<nat> {
    set i: nat | i < |rows| && rows[i].strategy == name
  }

  lemma {:induction false} RowCountIsNumber(rows: seq<Row>, name: string)
    ensures RowCount(rows, name) == |RowPositions(rows, name)|
  {
    if rows == [] {
      assert RowPositions(rows, name) == {};
    } else {
      var n := |rows| - 1;
      RowCountIsNumber(rows[..n], name);
      assert RowPositions(rows, name) == RowPositions(rows[..n], name) + if rows[n].strategy == name then {n} else {};
    }
  }

  /**
   Which fetched messages become rows, and which non-matches: in the window, confident enough and something
   saved; in the window but not so, if non-matches are kept. A row copies strategy and confidence.
   */
  lemma RowsExactly(order: seq<Id>, seen: map<Id, Stamped>, minConfidence: int, keep: bool, b: Books, id: Id)
    requires Balanced(order, seen, minConfidence, keep, b) && id in order && id in seen
    ensures var m := seen[id].message;
      && (id in RowIds(b.rows) <==>
            m.inWindow && m.confidence >= minConfidence && exists i :: 0 <= i < |m.fates| && m.fates[i].IsSaved?)
      && (id in RowIds(b.nonmatches) <==>
            keep && m.inWindow
            && (m.confidence < minConfidence || forall i :: 0 <= i < |m.fates| ==> !m.fates[i].IsSaved?))
    ensures forall r :: r in b.rows && r.id == id ==> r == Row(seen[id].message.id, seen[id].strategy, seen[id].message.confidence)
  {
    var m := seen[id].message;
    assert RowTest(minConfidence)(m) == Qualifies(m, minConfidence);
    assert NonmatchTest(minConfidence, keep)(m) == (keep && m.inWindow && !Qualifies(m, minConfidence));
  }
}
