/** The integrity measurement table: a hash table from measurement id to
    checksum that is filled in place by the collector or from its text
    form, written out as text, and compared against another table. */
module EngineIntegrity {
  import opened Wrappers
  import opened Text
  import opened Measurements
  import opened Codec
  import opened Drift

  /** A gboolean result with the message of the GError set on failure. */
  datatype Outcome = Pass | Fail(message: string)

  /** Inserting a new id grows a table by one entry; replacing one does not. */
  lemma InsertSize(m: map<string, string>, id: string, csum: string)
    ensures |m[id := csum]| == if id in m then |m| else |m| + 1
  {
    if id in m {
      assert m[id := csum].Keys == m.Keys;
    } else {
      assert m[id := csum].Keys == m.Keys + {id};
    }
  }

  lemma UnionAssociative(a: map<string, string>, b: map<string, string>, c: map<string, string>, d: map<string, string>)
    ensures a + b + c + d == a + (b + c + d)
  {
  }

  class IntegrityTable {
    var entries: map<string, string>

    /** A new, empty table. */
    constructor ()
      ensures entries == map[]
    {
      entries := map[];
    }

    /** Insert-or-replace: `id` now maps to `csum`, every other entry is
        unchanged, and the table grows by one exactly when `id` is new. */
    method AddChecksum(id: string, csum: string)
      modifies this
      ensures entries == old(entries)[id := csum]
      ensures |entries| == if id in old(entries) then old(|entries|) else old(|entries|) + 1
    {
      InsertSize(entries, id, csum);
      entries := entries[id := csum];
    }

    /** Inserts `id` with the digest of `blob`. */
    method AddMeasurement(id: string, blob: Bytes, digest: Bytes -> string)
      modifies this
      ensures entries == old(entries)[id := digest(blob)]
    {
      var csum := digest(blob);
      AddChecksum(id, csum);
    }

    /** Measures every ACPI table in the list that can be read and is non-empty. */
    method MeasureAcpi(tables: map<string, Bytes>, digest: Bytes -> string)
      modifies this
      ensures entries == old(entries) + AcpiEntries(tables, digest, |AcpiTables|)
    {
      for i := 0 to |AcpiTables|
        invariant entries == old(entries) + AcpiEntries(tables, digest, i)
      {
        var table := AcpiTables[i];
        if table in tables && |tables[table]| > 0 {
          UnionUpdate(old(entries), AcpiEntries(tables, digest, i), AcpiId(table), digest(tables[table]));
          AddMeasurement(AcpiId(table), tables[table], digest);
        }
      }
    }

    /** Measures every important variable the store holds, then every
        non-empty Boot#### variable in slots 0 to 0xFE. */
    method MeasureUefi(vars: map<VarKey, Bytes>, digest: Bytes -> string)
      modifies this
      ensures entries == old(entries)
        + ImportantEntries(vars, digest, |ImportantKeys|)
        + BootEntries(vars, digest)
    {
      MeasureImportant(vars, digest);
      MeasureBootSlots(vars, digest, BootNames());
    }

    /** The first loop of the UEFI collector: every important variable the
        store holds is measured, even a zero-length one. */
    method MeasureImportant(vars: map<VarKey, Bytes>, digest: Bytes -> string)
      modifies this
      ensures entries == old(entries) + ImportantEntries(vars, digest, |ImportantKeys|)
    {
      for i := 0 to |ImportantKeys|
        invariant entries == old(entries) + ImportantEntries(vars, digest, i)
      {
        var key := ImportantKeys[i];
        if key in vars {
          UnionUpdate(old(entries), ImportantEntries(vars, digest, i), UefiId(key.name), digest(vars[key]));
          AddMeasurement(UefiId(key.name), vars[key], digest);
        }
      }
    }

    /** The second loop of the UEFI collector, over the slot names it
        visits (`BootNames()`: `Boot0000` to `Boot00FE`): the variable of
        each slot is measured when it exists and is non-empty. */
    method MeasureBootSlots(vars: map<VarKey, Bytes>, digest: Bytes -> string, names: seq<string>)
      modifies this
      ensures entries == old(entries) + SlotEntries(vars, digest, names, |names|)
    {
      for i := 0 to |names|
        invariant entries == old(entries) + SlotEntries(vars, digest, names, i)
      {
        var name := names[i];
        SlotEntriesStep(old(entries), vars, digest, names, i);
        var key := VarKey(EfiGlobal, name);
        if key in vars && |vars[key]| > 0 {
          AddMeasurement(UefiId(name), vars[key], digest);
        }
      }
    }

    /** Runs both collectors. Entries are only inserted or replaced, never
        removed; the run fails with "no measurements" exactly when the
        table is still empty afterwards, and succeeds otherwise, even when
        nothing was inserted into an already non-empty table. */
    method Measure(vars: map<VarKey, Bytes>, tables: map<string, Bytes>, digest: Bytes -> string) returns (r: Outcome)
      modifies this
      ensures entries == old(entries) + Collected(vars, tables, digest)
      ensures old(entries).Keys <= entries.Keys
      ensures r == if entries == map[] then Fail("no measurements") else Pass
    {
      MeasureUefi(vars, digest);
      MeasureAcpi(tables, digest);
      UnionAssociative(old(entries), ImportantEntries(vars, digest, |ImportantKeys|),
        BootEntries(vars, digest), AcpiEntries(tables, digest, |AcpiTables|));
      if |entries| == 0 {
        return Fail("no measurements");
      }
      return Pass;
    }

    /** The text form: none for an empty table, otherwise one `id=checksum`
        line per entry, in the order of some enumeration `order` of the ids,
        joined by newlines with no trailing newline. */
    method ToString() returns (text: Option<string>, ghost order: seq<string>)
      ensures text.None? <==> entries == map[]
      ensures IsEnumeration(order, entries.Keys) && |order| == |entries|
      ensures text.Some? ==> text.value == Render(entries, order)
    {
      var rest := entries.Keys;
      var lines: seq<string> := [];
      order := [];
      while rest != {}
        invariant rest <= entries.Keys
        invariant forall i, j :: 0 <= i < j < |order| ==> order[i] != order[j]
        invariant forall k :: k in order <==> k in entries && k !in rest
        invariant |order| + |rest| == |entries|
        invariant lines == Lines(entries, order)
        decreases |rest|
      {
        var key :| key in rest;
        LinesAppend(entries, order, key);
        lines := lines + [Line(key, entries[key])];
        order := order + [key];
        rest := rest - {key};
      }
      if |entries| == 0 {
        return None, order;
      }
      return Some(Join("\n", lines)), order;
    }

    /** Reads text into the table, line by line: blank and `#` lines are
        skipped, other lines insert-or-replace the key before their first
        `=` with the rest of the line. At the first line with no `=` it
        stops and fails with a message holding the whole input; what the
        lines before it inserted stays in the table. */
    method FromString(str: string) returns (r: Outcome)
      modifies this
      ensures entries == ReadText(old(entries), str).table
      ensures r == if ReadText(old(entries), str).ok then Pass else Fail("failed to parse: " + str)
    {
      var lines := SplitLines(str);
      var i := 0;
      while i < |lines|
        invariant 0 <= i <= |lines|
        invariant ReadLines(old(entries), lines[..i]) == Loaded(entries, true)
      {
        var line := lines[i];
        assert lines[..i + 1][..i] == lines[..i];
        if !(line == [] || line[0] == '#') {
          var tokens := SplitOnce(line, '=');
          if tokens.None? {
            ReadLinesAppend(old(entries), lines[..i + 1], lines[i + 1..]);
            assert lines[..i + 1] + lines[i + 1..] == lines;
            return Fail("failed to parse: " + str);
          }
          AddChecksum(tokens.value.0, tokens.value.1);
        }
        i := i + 1;
      }
      assert lines[..i] == lines;
      return Pass;
    }

    /** Compares this table (now) against `other` (another time) without
        changing either. `changes` holds one record per id on which they
        disagree and no other, the Removed records last; the comparison
        succeeds exactly when the tables are equal, and otherwise fails
        with the records' texts joined by ", ". */
    method Compare(other: IntegrityTable) returns (r: Outcome, ghost changes: seq<Change>)
      ensures IsDiff(entries, other.entries, changes) && RemovedLast(changes)
      ensures r.Pass? <==> entries == other.entries
      ensures r == if changes == [] then Pass else Fail(Join(", ", DescribeAll(changes)))
    {
      var records;
      records, changes := AddedAndChanged(entries, other.entries);
      records, changes := AppendRemoved(entries, other.entries, records, changes);
      CoversAll(entries, other.entries, changes);
      EmptyDiffIffEqual(entries, other.entries, changes);
      if |records| > 0 {
        return Fail(Join(", ", records)), changes;
      }
      return Pass, changes;
    }
  }

  /** The first pass of a comparison, over the ids measured now: an Added
      record for each id missing from `before`, a Changed record for each
      id whose checksum differs, in the order of some enumeration. */
  method AddedAndChanged(now: map<string, string>, before: map<string, string>)
    returns (records: seq<string>, ghost changes: seq<Change>)
    ensures Covers(now, before, now.Keys, changes)
    ensures forall c :: c in changes ==> !c.Removed?
    ensures records == DescribeAll(changes)
  {
    records, changes := [], [];
    var rest := now.Keys;
    while rest != {}
      invariant rest <= now.Keys
      invariant Covers(now, before, now.Keys - rest, changes)
      invariant forall c :: c in changes ==> !c.Removed?
      invariant records == DescribeAll(changes)
      decreases |rest|
    {
      var key :| key in rest;
      CoversStep(now, before, now.Keys - rest, changes, key);
      assert now.Keys - (rest - {key}) == (now.Keys - rest) + {key};
      if key !in before {
        DescribeAllAppend(changes, Added(key, now[key]));
        changes := changes + [Added(key, now[key])];
        records := records + [Describe(Added(key, now[key]))];
      } else if now[key] != before[key] {
        DescribeAllAppend(changes, Changed(key, before[key], now[key]));
        changes := changes + [Changed(key, before[key], now[key])];
        records := records + [Describe(Changed(key, before[key], now[key]))];
      }
      rest := rest - {key};
    }
    assert now.Keys - rest == now.Keys;
  }

  /** The second pass of a comparison, over the ids measured at the other
      time: a Removed record for each id no longer measured, appended after
      the records of the first pass. */
  method AppendRemoved(now: map<string, string>, before: map<string, string>, records0: seq<string>, ghost changes0: seq<Change>)
    returns (records: seq<string>, ghost changes: seq<Change>)
    requires Covers(now, before, now.Keys, changes0) && RemovedLast(changes0)
    requires records0 == DescribeAll(changes0)
    ensures Covers(now, before, now.Keys + before.Keys, changes) && RemovedLast(changes)
    ensures records == DescribeAll(changes)
    ensures |changes0| <= |changes| && changes[..|changes0|] == changes0
    ensures |records0| <= |records| && records[..|records0|] == records0
  {
    records, changes := records0, changes0;
    var rest := before.Keys;
    ghost var done := now.Keys;
    while rest != {}
      invariant rest <= before.Keys
      invariant RemovedPass(now, before, done, rest, changes)
      invariant records == DescribeAll(changes)
      invariant |changes0| <= |changes| && changes[..|changes0|] == changes0
      invariant |records0| <= |records| && records[..|records0|] == records0
      decreases |rest|
    {
      var key :| key in rest;
      RemovedPassStep(now, before, done, rest, changes, key);
      if key !in now {
        DescribeAllAppend(changes, Removed(key, before[key]));
        PrefixKept(changes0, changes, Removed(key, before[key]));
        PrefixKept(records0, records, Describe(Removed(key, before[key])));
        changes := changes + [Removed(key, before[key])];
        records := records + [Describe(Removed(key, before[key]))];
        done := done + {key};
      }
      rest := rest - {key};
    }
    assert done == now.Keys + before.Keys;
  }

  /** Appending to a sequence keeps each of its prefixes. */
  lemma PrefixKept<T>(prefix: seq<T>, s: seq<T>, x: T)
    requires |prefix| <= |s| && s[..|prefix|] == prefix
    ensures |prefix| <= |s + [x]| && (s + [x])[..|prefix|] == prefix
  {
    assert (s + [x])[..|prefix|] == s[..|prefix|];
  }

  /** Saving a non-empty persistable table and reading the text into a new
      table gives an equal table: the copy compares as unchanged against
      the original, and the original against itself. */
  method SaveAndReload(table: IntegrityTable) returns (copy: IntegrityTable, same: Outcome, itself: Outcome)
    requires table.entries != map[] && Persistable(table.entries)
    ensures fresh(copy) && copy.entries == table.entries
    ensures same == Pass && itself == Pass
  {
    var text, order := table.ToString();
    copy := new IntegrityTable();
    Reload(table.entries, order);
    var loaded := copy.FromString(text.value);
    ghost var changes;
    same, changes := copy.Compare(table);
    itself, changes := table.Compare(table);
  }
}
