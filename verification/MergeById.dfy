/** archive/graph_invoice_finder.v1.py: `merge_unique_by_id`, keep the best row of each message. */
module MergeById {
  import opened Strings

  type Id = string

  datatype Row = Row(id: Id, confidence: real, data: string)

  function Ids(rows: seq<Row>): (r: seq<Id>)
    ensures |r| == |rows| && forall i :: 0 <= i < |rows| ==> r[i] == rows[i].id
  {
    seq(|rows|, i requires 0 <= i < |rows| => rows[i].id)
  }

  // ---------- The specification ----------

  /** One more row into the ordered best rows: a new id goes to the end, a strictly better row takes the old one's place. */
  function Insert(best: seq<Row>, r: Row): seq<Row> {
    if best == [] then [r]
    else if best[0].id == r.id then [if r.confidence > best[0].confidence then r else best[0]] + best[1..]
    else [best[0]] + Insert(best[1..], r)
  }

  function MergeInto(best: seq<Row>, rows: seq<Row>): seq<Row> {
    if rows == [] then best
    else Insert(MergeInto(best, rows[..|rows| - 1]), rows[|rows| - 1])
  }

  function Merge(rows: seq<Row>): seq<Row> {
    MergeInto([], rows)
  }

  // ---------- The loop ----------

  /** `list(seen.values())` */
  function Values(order: seq<Id>, seen: map<Id, Row>): (r: seq<Row>)
    requires forall k :: k in order ==> k in seen
    ensures |r| == |order| && forall i :: 0 <= i < |order| ==> r[i] == seen[order[i]]
  {
    seq(|order|, i requires 0 <= i < |order| => seen[order[i]])
  }

  /** Every entry is stored under its own id, and the key order lists the keys once. */
  ghost predicate IsDict(order: seq<Id>, seen: map<Id, Row>) {
    && NoRepeats(order)
    && (forall k :: k in seen <==> k in order)
    && forall k :: k in seen ==> seen[k].id == k
  }

  lemma {:induction false} KeepEntry(order: seq<Id>, seen: map<Id, Row>, r: Row)
    requires NoRepeats(order) && (forall k :: k in order ==> k in seen && seen[k].id == k)
    requires r.id in order && r.confidence <= seen[r.id].confidence
    ensures Insert(Values(order, seen), r) == Values(order, seen)
  {
    var vs := Values(order, seen);
    assert vs[1..] == Values(order[1..], seen) && vs[0] == seen[order[0]];
    assert vs == [vs[0]] + vs[1..];
    if order[0] == r.id {
    } else {
      KeepEntry(order[1..], seen, r);
    }
  }

  lemma {:induction false} OverwriteEntry(order: seq<Id>, seen: map<Id, Row>, r: Row)
    requires NoRepeats(order) && (forall k :: k in order ==> k in seen && seen[k].id == k)
    requires r.id in order && r.confidence > seen[r.id].confidence
    ensures Insert(Values(order, seen), r) == Values(order, seen[r.id := r])
  {
    var seen' := seen[r.id := r];
    assert Values(order, seen)[1..] == Values(order[1..], seen);
    assert Values(order, seen')[1..] == Values(order[1..], seen');
    if order[0] == r.id {
      assert forall k :: k in order[1..] ==> k != r.id;
      assert Values(order[1..], seen') == Values(order[1..], seen);
    } else {
      OverwriteEntry(order[1..], seen, r);
    }
  }

  lemma {:induction false} NewEntry(order: seq<Id>, seen: map<Id, Row>, r: Row)
    requires (forall k :: k in order ==> k in seen && seen[k].id == k) && r.id !in order
    ensures Insert(Values(order, seen), r) == Values(order + [r.id], seen[r.id := r])
  {
    var order', seen' := order + [r.id], seen[r.id := r];
    if order == [] {
    } else {
      assert Values(order, seen)[1..] == Values(order[1..], seen);
      assert order'[1..] == order[1..] + [r.id];
      assert Values(order', seen')[1..] == Values(order'[1..], seen');
      NewEntry(order[1..], seen, r);
    }
  }

  /** `seen` is an insertion-ordered dictionary: `order` is the order in which its keys first came in. */
  method MergeUniqueById(rows: seq<Row>) returns (merged: seq<Row>)
    ensures merged == Merge(rows)
  {
    var order: seq<Id> := [];
    var seen: map<Id, Row> := map[];
    for i := 0 to |rows|
      invariant IsDict(order, seen)
      invariant Values(order, seen) == Merge(rows[..i])
    {
      var r := rows[i];
      assert rows[..i + 1][..i] == rows[..i];
      if r.id !in seen || r.confidence > seen[r.id].confidence {
        if r.id !in seen {
          NewEntry(order, seen, r);
          order := order + [r.id];
        } else {
          OverwriteEntry(order, seen, r);
        }
        seen := seen[r.id := r];
      } else {
        KeepEntry(order, seen, r);
      }
    }
    assert rows[..|rows|] == rows;
    merged := Values(order, seen);
  }

  // ---------- What it computes ----------

  /** r is the earliest among the rows of maximal confidence for its id. */
  ghost predicate IsEarliestBest(rows: seq<Row>, r: Row) {
    exists i :: 0 <= i < |rows| && rows[i] == r
      && (forall j :: 0 <= j < |rows| && rows[j].id == r.id ==> rows[j].confidence <= r.confidence)
      && (forall j :: 0 <= j < i && rows[j].id == r.id ==> rows[j].confidence < r.confidence)
  }

  lemma IdsConcat(a: seq<Row>, b: seq<Row>)
    ensures Ids(a + b) == Ids(a) + Ids(b)
  {
  }

  lemma {:induction false} InsertNew(best: seq<Row>, r: Row)
    requires r.id !in Ids(best)
    ensures Insert(best, r) == best + [r]
  {
    if best == [] {
    } else {
      assert Ids(best)[0] == best[0].id && Ids(best)[1..] == Ids(best[1..]);
      InsertNew(best[1..], r);
    }
  }

  /** A row whose id is there changes no id at any position. */
  lemma {:induction false} InsertKnown(best: seq<Row>, r: Row, k: nat)
    requires k < |best| && best[k].id == r.id
    ensures |Insert(best, r)| == |best| && forall i :: 0 <= i < |best| ==> Insert(best, r)[i].id == best[i].id
  {
    if best[0].id == r.id {
    } else {
      InsertKnown(best[1..], r, k - 1);
    }
  }

  lemma InsertIds(best: seq<Row>, r: Row)
    ensures Ids(Insert(best, r)) == if r.id in Ids(best) then Ids(best) else Ids(best) + [r.id]
  {
    if r.id in Ids(best) {
      var k :| 0 <= k < |Ids(best)| && Ids(best)[k] == r.id;
      InsertKnown(best, r, k);
    } else {
      InsertNew(best, r);
      IdsConcat(best, [r]);
    }
  }

  lemma {:induction false} InsertedRow(best: seq<Row>, r: Row, x: Row)
    requires NoRepeats(Ids(best)) && x in Insert(best, r)
    ensures x.id != r.id ==> x in best
    ensures x.id == r.id ==>
      (x in best && r.confidence <= x.confidence) ||
      (x == r && forall y :: y in best && y.id == r.id ==> y.confidence < r.confidence)
  {
    if best == [] {
    } else {
      var rest := best[1..];
      assert Ids(best)[1..] == Ids(rest) && Ids(best)[0] == best[0].id;
      assert best == [best[0]] + rest;
      if best[0].id == r.id {
        forall y | y in rest ensures y.id != r.id {
          var j :| 0 <= j < |rest| && rest[j] == y;
          assert Ids(best)[j + 1] == y.id;
        }
      } else if x in Insert(rest, r) {
        InsertedRow(rest, r, x);
      }
    }
  }

  /** Every row's id has a representative at least as good. */
  lemma ChampionExists(rows: seq<Row>, j: nat)
    requires j < |rows|
    requires forall y :: y in Merge(rows) ==> IsEarliestBest(rows, y)
    requires Ids(Merge(rows)) == Unique(Ids(rows))
    ensures exists y :: y in Merge(rows) && y.id == rows[j].id && rows[j].confidence <= y.confidence
  {
    assert Ids(rows)[j] in Ids(rows);
    var k :| 0 <= k < |Ids(Merge(rows))| && Ids(Merge(rows))[k] == rows[j].id;
    assert Merge(rows)[k] in Merge(rows);
  }

  lemma BestSurvives(init: seq<Row>, r: Row, x: Row)
    requires forall y :: y in Merge(init) ==> IsEarliestBest(init, y)
    requires Ids(Merge(init)) == Unique(Ids(init))
    requires x.id != r.id ==> x in Merge(init)
    requires x.id == r.id ==>
      (x in Merge(init) && r.confidence <= x.confidence) ||
      (x == r && forall y :: y in Merge(init) && y.id == r.id ==> y.confidence < r.confidence)
    ensures IsEarliestBest(init + [r], x)
  {
    var rows := init + [r];
    if x in Merge(init) && (x.id != r.id || r.confidence <= x.confidence) {
      var i :| 0 <= i < |init| && init[i] == x
        && (forall j :: 0 <= j < |init| && init[j].id == x.id ==> init[j].confidence <= x.confidence)
        && (forall j :: 0 <= j < i && init[j].id == x.id ==> init[j].confidence < x.confidence);
      assert rows[i] == x;
    } else {
      forall j | 0 <= j < |init| && init[j].id == r.id ensures init[j].confidence < r.confidence {
        ChampionExists(init, j);
      }
      assert rows[|init|] == x;
    }
  }

  lemma {:induction false} MergeIds(rows: seq<Row>)
    ensures Ids(Merge(rows)) == Unique(Ids(rows))
  {
    if rows == [] {
    } else {
      var init, r := rows[..|rows| - 1], rows[|rows| - 1];
      MergeIds(init);
      assert rows == init + [r];
      IdsConcat(init, [r]);
      assert Ids(rows)[..|init|] == Ids(init);
      InsertIds(Merge(init), r);
    }
  }

  lemma {:induction false} MergeIsBest(rows: seq<Row>, x: Row)
    requires x in Merge(rows)
    ensures IsEarliestBest(rows, x)
  {
    var n := |rows| - 1;
    var init, r := rows[..n], rows[n];
    MergeIds(init);
    forall y | y in Merge(init) ensures IsEarliestBest(init, y) {
      MergeIsBest(init, y);
    }
    InsertedRow(Merge(init), r, x);
    BestSurvives(init, r, x);
    assert rows == init + [r];
  }

  /**
   The result holds one row per id, ids in order of first appearance, and each row is the earliest
   one of maximal confidence for its id.
   */
  lemma MergeExact(rows: seq<Row>)
    ensures Ids(Merge(rows)) == Unique(Ids(rows))
    ensures forall x :: x in Merge(rows) ==> IsEarliestBest(rows, x)
  {
    MergeIds(rows);
    forall x | x in Merge(rows) ensures IsEarliestBest(rows, x) {
      MergeIsBest(rows, x);
    }
  }

  /** These two facts leave no freedom: there is one such list. */
  lemma MergeDetermined(rows: seq<Row>, other: seq<Row>)
    requires Ids(other) == Unique(Ids(rows)) && forall x :: x in other ==> IsEarliestBest(rows, x)
    ensures other == Merge(rows)
  {
    MergeExact(rows);
    var m := Merge(rows);
    forall k | 0 <= k < |m| ensures other[k] == m[k] {
      assert Ids(other)[k] == Ids(m)[k];
      assert other[k] in other && m[k] in m;
      EarliestBestIsUnique(rows, other[k], m[k]);
    }
  }

  lemma EarliestBestIsUnique(rows: seq<Row>, x: Row, y: Row)
    requires IsEarliestBest(rows, x) && IsEarliestBest(rows, y) && x.id == y.id
    ensures x == y
  {
    var i :| 0 <= i < |rows| && rows[i] == x
      && (forall j :: 0 <= j < |rows| && rows[j].id == x.id ==> rows[j].confidence <= x.confidence)
      && (forall j :: 0 <= j < i && rows[j].id == x.id ==> rows[j].confidence < x.confidence);
    var k :| 0 <= k < |rows| && rows[k] == y
      && (forall j :: 0 <= j < |rows| && rows[j].id == y.id ==> rows[j].confidence <= y.confidence)
      && (forall j :: 0 <= j < k && rows[j].id == y.id ==> rows[j].confidence < y.confidence);
    assert !(i < k) && !(k < i);
  }

  // ---------- Merging is incremental ----------

  lemma {:induction false} MergeIntoConcat(best: seq<Row>, a: seq<Row>, b: seq<Row>)
    ensures MergeInto(best, a + b) == MergeInto(MergeInto(best, a), b)
  {
    if b == [] {
      assert a + b == a;
    } else {
      var n := |b| - 1;
      assert (a + b)[..|a| + n] == a + b[..n];
      MergeIntoConcat(best, a, b[..n]);
    }
  }

  lemma {:induction false} MergeOfDistinct(rows: seq<Row>)
    requires NoRepeats(Ids(rows))
    ensures Merge(rows) == rows
  {
    if rows == [] {
    } else {
      var n := |rows| - 1;
      assert Ids(rows)[..n] == Ids(rows[..n]) && Ids(rows)[n] == rows[n].id;
      MergeOfDistinct(rows[..n]);
      InsertNew(rows[..n], rows[n]);
    }
  }

  /** Merging a merged list with new rows is merging everything at once; so merging twice is merging once. */
  lemma MergeIncremental(a: seq<Row>, b: seq<Row>)
    ensures Merge(Merge(a) + b) == Merge(a + b)
    ensures Merge(Merge(a)) == Merge(a)
  {
    MergeExact(a);
    MergeOfDistinct(Merge(a));
    MergeIntoConcat([], Merge(a), b);
    MergeIntoConcat([], a, b);
  }
}
