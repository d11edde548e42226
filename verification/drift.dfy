/** The difference between the table measured now and the table measured
    at another time, one record per id on which they disagree, and how
    each record is written into the mismatch message. */
module Drift {
  import opened Wrappers
  import opened Text

  /** Added: the id is measured now but was not then. Changed: measured at
      both times with different checksums. Removed: measured then, not now. */
  datatype Change =
    | Added(key: string, now: string)
    | Changed(key: string, was: string, now: string)
    | Removed(key: string, was: string)

  /** The text of one record. An added id is written `id=MISSING->now`, a
      changed one `id=was->now`, a removed one `id=was->MISSING`. */
  function Describe(c: Change): (text: string)
    ensures |text| > |c.key| && text[..|c.key| + 1] == c.key + "="
    ensures c.Added? ==> text[|c.key| + 1..] == "MISSING" + "->" + c.now
    ensures c.Changed? ==> text[|c.key| + 1..] == c.was + "->" + c.now
    ensures c.Removed? ==> text[|c.key| + 1..] == c.was + "->" + "MISSING"
  {
    var (key, rest) := match c
      case Added(key, now) => (key, "MISSING" + "->" + now)
      case Changed(key, was, now) => (key, was + "->" + now)
      case Removed(key, was) => (key, was + "->" + "MISSING");
    var text := key + "=" + rest;
    assert text[..|key| + 1] == key + "=" && text[|key| + 1..] == rest;
    text
  }

  function DescribeAll(changes: seq<Change>): seq<string>
  {
    seq(|changes|, i requires 0 <= i < |changes| => Describe(changes[i]))
  }

  /** Appending a record appends its text. */
  lemma DescribeAllAppend(changes: seq<Change>, c: Change)
    ensures DescribeAll(changes + [c]) == DescribeAll(changes) + [Describe(c)]
  {
  }

  /** The record, if any, for id `k` when `now` is compared against `other`.
      There is one exactly when the two tables disagree at `k`. */
  function Classify(now: map<string, string>, other: map<string, string>, k: string): (r: Option<Change>)
    ensures r.Some? ==> r.value.key == k
    ensures r.None? <==> (k in now <==> k in other) && (k in now && k in other ==> now[k] == other[k])
  {
    if k in now then
      if k !in other then Some(Added(k, now[k]))
      else if now[k] != other[k] then Some(Changed(k, other[k], now[k]))
      else None
    else if k in other then Some(Removed(k, other[k]))
    else None
  }

  /** No two records name the same id. */
  ghost predicate KeysDistinct(changes: seq<Change>)
  {
    forall i, j :: 0 <= i < j < |changes| ==> changes[i].key != changes[j].key
  }

  /** Every Removed record comes after every other record. */
  ghost predicate RemovedLast(changes: seq<Change>)
  {
    forall i, j :: 0 <= i < j < |changes| && changes[i].Removed? ==> changes[j].Removed?
  }

  /** Records with no Removed among them, or a Removed record appended to
      records that already end with the Removed ones, keep Removed last. */
  lemma RemovedLastAppend(changes: seq<Change>, c: Change)
    requires RemovedLast(changes)
    requires c.Removed? || forall d :: d in changes ==> !d.Removed?
    ensures RemovedLast(changes + [c])
  {
  }

  /** `changes` lists each record of comparing `now` against `other` exactly
      once, and nothing else. */
  ghost predicate IsDiff(now: map<string, string>, other: map<string, string>, changes: seq<Change>)
  {
    && (forall c :: c in changes <==> Classify(now, other, c.key) == Some(c))
    && KeysDistinct(changes)
  }

  /** `changes` holds the record of every id in `done` on which the two
      tables disagree, once each, and no record of any other id. */
  ghost predicate Covers(now: map<string, string>, other: map<string, string>, done: set<string>, changes: seq<Change>)
  {
    && (forall c :: c in changes ==> c.key in done && Classify(now, other, c.key) == Some(c))
    && (forall k :: k in done && Classify(now, other, k).Some? ==> Classify(now, other, k).value in changes)
    && KeysDistinct(changes)
  }

  /** Visiting one more id: its record, if it has one, is appended. */
  lemma CoversStep(now: map<string, string>, other: map<string, string>, done: set<string>, changes: seq<Change>, k: string)
    requires Covers(now, other, done, changes) && k !in done
    ensures Classify(now, other, k).None? ==> Covers(now, other, done + {k}, changes)
    ensures Classify(now, other, k).Some? ==> Covers(now, other, done + {k}, changes + [Classify(now, other, k).value])
  {
    var r := Classify(now, other, k);
    if r.Some? {
      var changes' := changes + [r.value];
      forall i, j | 0 <= i < j < |changes'| ensures changes'[i].key != changes'[j].key {
        if j == |changes| {
          assert changes[i] in changes;
        }
      }
    }
  }

  /** The state of the second pass of a comparison, over the ids of `other`:
      `rest` is what it has still to visit, `done` every id whose record is
      settled, which is every id of `now` and every visited id of `other`. */
  ghost predicate RemovedPass(now: map<string, string>, other: map<string, string>, done: set<string>, rest: set<string>, changes: seq<Change>)
  {
    && now.Keys <= done
    && done + rest == now.Keys + other.Keys
    && (forall k :: k in rest && k !in now ==> k !in done)
    && Covers(now, other, done, changes)
    && RemovedLast(changes)
  }

  /** Visiting one more id of `other` in the second pass: a Removed record
      is appended when `now` lacks it, and nothing otherwise. */
  lemma RemovedPassStep(now: map<string, string>, other: map<string, string>, done: set<string>, rest: set<string>, changes: seq<Change>, k: string)
    requires RemovedPass(now, other, done, rest, changes) && k in rest && rest <= other.Keys
    ensures k !in now ==> RemovedPass(now, other, done + {k}, rest - {k}, changes + [Removed(k, other[k])])
    ensures k in now ==> RemovedPass(now, other, done, rest - {k}, changes)
  {
    if k !in now {
      CoversStep(now, other, done, changes, k);
      RemovedLastAppend(changes, Removed(k, other[k]));
    }
  }

  /** Once every id of either table has been visited, the records are the diff. */
  lemma CoversAll(now: map<string, string>, other: map<string, string>, changes: seq<Change>)
    requires Covers(now, other, now.Keys + other.Keys, changes)
    ensures IsDiff(now, other, changes)
  {
    forall c ensures c in changes <==> Classify(now, other, c.key) == Some(c) {
      if Classify(now, other, c.key) == Some(c) {
        assert c.key in now.Keys + other.Keys;
      }
    }
  }

  /** The two tables agree everywhere exactly when they are equal: a
      comparison reports nothing exactly for equal tables. */
  lemma NoChangesIffEqual(now: map<string, string>, other: map<string, string>)
    ensures (forall k :: Classify(now, other, k).None?) <==> now == other
  {
    if forall k :: Classify(now, other, k).None? {
      forall k | k in now ensures k in other && now[k] == other[k] {
        assert Classify(now, other, k).None?;
      }
      forall k | k in other ensures k in now {
        assert Classify(now, other, k).None?;
      }
      assert now.Keys == other.Keys;
    }
  }

  /** A diff is empty exactly when the tables are equal. */
  lemma EmptyDiffIffEqual(now: map<string, string>, other: map<string, string>, changes: seq<Change>)
    requires IsDiff(now, other, changes)
    ensures changes == [] <==> now == other
  {
    NoChangesIffEqual(now, other);
    if changes != [] {
      assert Classify(now, other, changes[0].key) == Some(changes[0]);
    } else {
      forall k ensures Classify(now, other, k).None? {
        var r := Classify(now, other, k);
        if r.Some? {
          assert false;
        }
      }
    }
  }

  /** Swapping the two tables swaps Added with Removed and the two sides of
      a Changed record: detection is symmetric, the direction is not. */
  lemma ClassifySwapped(now: map<string, string>, other: map<string, string>, k: string)
    ensures Classify(now, other, k).None? <==> Classify(other, now, k).None?
    ensures Classify(now, other, k).Some? && Classify(now, other, k).value.Added? ==>
      Classify(other, now, k) == Some(Removed(k, now[k]))
    ensures Classify(now, other, k).Some? && Classify(now, other, k).value.Changed? ==>
      Classify(other, now, k) == Some(Changed(k, now[k], other[k]))
  {
  }

  /** With `{a: v1}` then and `{a: v2, b: v3}` now, where `v1` differs from
      `v2`, the records read `a=v1->v2` and `b=MISSING->v3`. */
  lemma ExampleDrift(a: string, b: string, v1: string, v2: string, v3: string)
    requires a != b && v1 != v2
    ensures Describe(Classify(map[a := v2, b := v3], map[a := v1], a).value) == a + "=" + v1 + "->" + v2
    ensures Describe(Classify(map[a := v2, b := v3], map[a := v1], b).value) == b + "=MISSING->" + v3
  {
  }
}
