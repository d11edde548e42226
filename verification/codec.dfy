/** The text form of a measurement table: one `id=checksum` line per entry,
    lines joined by a newline; and the reading of such text back into a
    table, line by line, skipping blank and `#` comment lines. */
module Codec {
  import opened Wrappers
  import opened Text

  /** `order` lists every key of `keys` exactly once: one possible
      iteration order of a hash table holding those keys. */
  ghost predicate IsEnumeration(order: seq<string>, keys: set<string>)
  {
    && (forall i, j :: 0 <= i < j < |order| ==> order[i] != order[j])
    && (forall k :: k in order <==> k in keys)
  }

  /** The line written for one entry: it splits at its first `=` back into
      the key and the value when the key holds no `=`, and it holds a
      newline only when the key or the value does. */
  function Line(key: string, value: string): (line: string)
    ensures '=' !in key ==> SplitOnce(line, '=') == Some((key, value))
    ensures '\n' !in key && '\n' !in value ==> '\n' !in line
  {
    // Both branches give the same line; the split only calls the lemma
    // where its requires holds.
    if '=' in key then key + "=" + value
    else
      SplitOnceOfGlued(key, '=', value);
      key + "=" + value
  }

  /** The lines written for `m` when its keys are visited in `order`. */
  function Lines(m: map<string, string>, order: seq<string>): (lines: seq<string>)
    requires forall k :: k in order ==> k in m
    ensures |lines| == |order|
    ensures forall i :: 0 <= i < |lines| && '=' !in order[i] ==> SplitOnce(lines[i], '=') == Some((order[i], m[order[i]]))
  {
    seq(|order|, i requires 0 <= i < |order| => Line(order[i], m[order[i]]))
  }

  /** The text written for a non-empty `m` when its keys are visited in
      `order`: when no key or value holds a newline, splitting it at the
      newlines gives back one line per visited key. */
  function Render(m: map<string, string>, order: seq<string>): (text: string)
    requires forall k :: k in order ==> k in m
    ensures order != [] && (forall k :: k in m ==> '\n' !in k && '\n' !in m[k]) ==> SplitLines(text) == Lines(m, order)
  {
    var lines := Lines(m, order);
    // Both branches give the same text; the split only calls the lemma
    // where its requires holds.
    if order != [] && (forall k :: k in m ==> '\n' !in k && '\n' !in m[k]) then
      assert forall i :: 0 <= i < |lines| ==> '\n' !in lines[i];
      SplitAllOfJoin(lines, '\n');
      Join("\n", lines)
    else Join("\n", lines)
  }

  /** A table that its own text form describes unambiguously: no key holds
      `=` or a newline or starts with `#`, and no value holds a newline. */
  ghost predicate Persistable(m: map<string, string>)
  {
    forall k :: k in m ==> '=' !in k && '\n' !in k && (k == [] || k[0] != '#') && '\n' !in m[k]
  }

  /** The table after reading some lines, and whether every line so far
      could be read. Reading stops at the first line that cannot. */
  datatype Loaded = Loaded(table: map<string, string>, ok: bool)

  /** Blank lines and `#` comment lines are ignored. */
  predicate Skipped(line: string)
  {
    line == [] || line[0] == '#'
  }

  /** Reading one line into `m`: a skipped line changes nothing, a line with
      an `=` inserts (or replaces) the key before its first `=` with the
      rest of the line, and any other line cannot be read. */
  function ReadLine(m: map<string, string>, line: string): Loaded
  {
    if Skipped(line) then Loaded(m, true)
    else match SplitOnce(line, '=')
      case None => Loaded(m, false)
      case Some((key, value)) => Loaded(m[key := value], true)
  }

  /** The three outcomes of reading one line: a line that is neither
      skipped nor holds an `=` cannot be read and changes nothing; a
      skipped line changes nothing; any other line sets the key before its
      first `=` to the rest of the line. */
  lemma ReadLineCases(m: map<string, string>, line: string)
    ensures ReadLine(m, line).ok <==> Skipped(line) || '=' in line
    ensures !ReadLine(m, line).ok || Skipped(line) ==> ReadLine(m, line).table == m
    ensures ReadLine(m, line).ok && !Skipped(line) ==>
      var i := IndexOf(line, '=');
      '=' !in line[..i] && ReadLine(m, line).table == m[line[..i] := line[i + 1..]]
  {
  }

  /** Reading `lines` into `m` in order, stopping at the first line that
      cannot be read; entries read before it stay. */
  function ReadLines(m: map<string, string>, lines: seq<string>): Loaded
    decreases |lines|
  {
    if lines == [] then Loaded(m, true)
    else
      var before := ReadLines(m, lines[..|lines| - 1]);
      if !before.ok then before else ReadLine(before.table, lines[|lines| - 1])
  }

  /** Reading a whole text into `m`. */
  function ReadText(m: map<string, string>, text: string): Loaded
  {
    ReadLines(m, SplitLines(text))
  }

  /** Reading `a + b` is reading `a` and then, if that succeeded, `b`. */
  lemma {:induction false} ReadLinesAppend(m: map<string, string>, a: seq<string>, b: seq<string>)
    ensures ReadLines(m, a + b) ==
      var first := ReadLines(m, a);
      if first.ok then ReadLines(first.table, b) else first
    decreases |b|
  {
    if b == [] {
      assert a + b == a;
    } else {
      var last := |b| - 1;
      assert (a + b)[..|a + b| - 1] == a + b[..last];
      assert (a + b)[|a + b| - 1] == b[last];
      ReadLinesAppend(m, a, b[..last]);
    }
  }

  /** Reading succeeds exactly when every line that is not skipped holds an `=`. */
  lemma {:induction false} ReadLinesOk(m: map<string, string>, lines: seq<string>)
    ensures ReadLines(m, lines).ok <==>
      forall i :: 0 <= i < |lines| && !Skipped(lines[i]) ==> '=' in lines[i]
    decreases |lines|
  {
    if lines != [] {
      var prefix := lines[..|lines| - 1];
      ReadLinesOk(m, prefix);
      assert forall i :: 0 <= i < |prefix| ==> prefix[i] == lines[i];
    }
  }

  /** Reading never removes a key: it only inserts or replaces. */
  lemma {:induction false} ReadLinesKeepsKeys(m: map<string, string>, lines: seq<string>)
    ensures m.Keys <= ReadLines(m, lines).table.Keys
    decreases |lines|
  {
    if lines != [] {
      ReadLinesKeepsKeys(m, lines[..|lines| - 1]);
    }
  }

  /** Reading is not atomic: when line `j` is the first that cannot be read,
      the result fails and holds everything the lines before `j` inserted. */
  lemma ReadStopsAtFirstBadLine(m: map<string, string>, lines: seq<string>, j: nat)
    requires j < |lines| && !Skipped(lines[j]) && '=' !in lines[j]
    requires forall i :: 0 <= i < j && !Skipped(lines[i]) ==> '=' in lines[i]
    ensures ReadLines(m, lines[..j]).ok
    ensures ReadLines(m, lines) == Loaded(ReadLines(m, lines[..j]).table, false)
  {
    ReadLinesOk(m, lines[..j]);
    assert lines[..j + 1][..j] == lines[..j];
    ReadLineCases(ReadLines(m, lines[..j]).table, lines[j]);
    ReadLinesAppend(m, lines[..j + 1], lines[j + 1..]);
    assert lines[..j + 1] + lines[j + 1..] == lines;
  }

  /** A later line for the same key wins: after any successful prefix, a
      line `key=value` leaves `key` mapped to `value`, whatever `value` holds. */
  lemma LaterLineWins(m: map<string, string>, lines: seq<string>, key: string, value: string)
    requires ReadLines(m, lines).ok
    requires '=' !in key && (key == [] || key[0] != '#')
    ensures ReadLines(m, lines + [Line(key, value)]) ==
      Loaded(ReadLines(m, lines).table[key := value], true)
  {
    ReadLinesAppend(m, lines, [Line(key, value)]);
    assert [Line(key, value)][..0] == [];
    SplitOnceOfGlued(key, '=', value);
  }

  /** The entries of `m` whose keys are listed in `keys`. */
  ghost function Take(m: map<string, string>, keys: seq<string>): map<string, string>
  {
    map k | k in keys && k in m :: m[k]
  }

  /** Reading the first `j` lines written for `m` into `base` inserts exactly
      the first `j` keys of `order` with their values. */
  lemma {:induction false} ReadLinesOfPrefix(base: map<string, string>, m: map<string, string>, order: seq<string>, j: nat)
    requires Persistable(m) && IsEnumeration(order, m.Keys) && j <= |order|
    ensures ReadLines(base, Lines(m, order[..j])) == Loaded(base + Take(m, order[..j]), true)
    decreases j
  {
    if j > 0 {
      var key := order[j - 1];
      var prev := base + Take(m, order[..j - 1]);
      ReadLinesOfPrefix(base, m, order, j - 1);
      assert key in m;
      LinesExtend(m, order, j);
      ReadLinesAppend(base, Lines(m, order[..j - 1]), [Line(key, m[key])]);
      ReadOneEntry(prev, key, m[key]);
      TakeExtend(m, order, j);
      UnionUpdate(base, Take(m, order[..j - 1]), key, m[key]);
    } else {
      assert Take(m, order[..0]) == map[];
    }
  }

  lemma UnionUpdate(base: map<string, string>, t: map<string, string>, key: string, value: string)
    ensures (base + t)[key := value] == base + t[key := value]
  {
  }

  /** Visiting one more key appends its line. */
  lemma LinesAppend(m: map<string, string>, order: seq<string>, key: string)
    requires (forall k :: k in order ==> k in m) && key in m
    ensures Lines(m, order + [key]) == Lines(m, order) + [Line(key, m[key])]
  {
  }

  /** One more key visited adds one more line at the end. */
  lemma LinesExtend(m: map<string, string>, order: seq<string>, j: nat)
    requires 0 < j <= |order| && forall k :: k in order ==> k in m
    ensures Lines(m, order[..j]) == Lines(m, order[..j - 1]) + [Line(order[j - 1], m[order[j - 1]])]
  {
  }

  /** Reading one entry line inserts that entry. */
  lemma ReadOneEntry(m: map<string, string>, key: string, value: string)
    requires '=' !in key && (key == [] || key[0] != '#')
    ensures ReadLines(m, [Line(key, value)]) == Loaded(m[key := value], true)
  {
    assert [Line(key, value)][..0] == [];
    SplitOnceOfGlued(key, '=', value);
  }

  lemma TakeExtend(m: map<string, string>, order: seq<string>, j: nat)
    requires 0 < j <= |order| && order[j - 1] in m
    ensures Take(m, order[..j]) == Take(m, order[..j - 1])[order[j - 1] := m[order[j - 1]]]
  {
    assert order[..j] == order[..j - 1] + [order[j - 1]];
  }

  /** The text written for a non-empty table whose keys and values hold no
      newline splits back into exactly one `key=value` line per entry, in
      the order visited: as many lines as the table has entries. The first
      ensures restates `Render`'s own for callers, with its conditions
      discharged from `m != map[]`; the second is the new fact. */
  lemma RenderedLines(m: map<string, string>, order: seq<string>)
    requires m != map[] && IsEnumeration(order, m.Keys)
    requires forall k :: k in m ==> '\n' !in k && '\n' !in m[k]
    ensures SplitLines(Render(m, order)) == Lines(m, order)
    ensures |SplitLines(Render(m, order))| == |m|
  {
    var lines := Lines(m, order);
    assert order != [] by {
      var k :| k in m;
      assert k in order;
    }
    forall i | 0 <= i < |lines| ensures '\n' !in lines[i] {
      assert lines[i] == order[i] + "=" + m[order[i]];
    }
    SplitAllOfJoin(lines, '\n');
    EnumerationSize(order, m.Keys);
  }

  /** An enumeration of a set is as long as the set is large. */
  lemma {:induction false} EnumerationSize(order: seq<string>, keys: set<string>)
    requires IsEnumeration(order, keys)
    ensures |order| == |keys|
    decreases |order|
  {
    if order != [] {
      var last := order[|order| - 1];
      var prefix := order[..|order| - 1];
      assert IsEnumeration(prefix, keys - {last}) by {
        forall k ensures k in prefix <==> k in keys - {last} {
          if k in prefix {
            var i :| 0 <= i < |prefix| && prefix[i] == k;
            assert order[i] == k;
          }
          if k in keys - {last} {
            var i :| 0 <= i < |order| && order[i] == k;
            assert i < |order| - 1;
            assert prefix[i] == k;
          }
        }
      }
      EnumerationSize(prefix, keys - {last});
    } else {
      assert keys == {};
    }
  }

  /** Round trip: reading the text written for a non-empty persistable
      table `m`, in any iteration order, into `base` yields `base` updated
      with exactly the entries of `m`; into an empty table, exactly `m`. */
  lemma RoundTrip(base: map<string, string>, m: map<string, string>, order: seq<string>)
    requires m != map[] && Persistable(m) && IsEnumeration(order, m.Keys)
    ensures ReadText(base, Render(m, order)) == Loaded(base + m, true)
  {
    RenderedLines(m, order);
    ReadAllLines(base, m, order);
  }

  /** Reading every line written for `m` into `base` inserts all of `m`. */
  lemma ReadAllLines(base: map<string, string>, m: map<string, string>, order: seq<string>)
    requires Persistable(m) && IsEnumeration(order, m.Keys)
    ensures ReadLines(base, Lines(m, order)) == Loaded(base + m, true)
  {
    ReadLinesOfPrefix(base, m, order, |order|);
    assert order[..|order|] == order;
    TakeAll(m, order);
  }

  lemma TakeAll(m: map<string, string>, order: seq<string>)
    requires IsEnumeration(order, m.Keys)
    ensures Take(m, order) == m
  {
    assert Take(m, order).Keys == m.Keys;
  }

  /** Reading the text written for a non-empty persistable table into an
      empty table gives that table back. */
  lemma Reload(m: map<string, string>, order: seq<string>)
    requires m != map[] && Persistable(m) && IsEnumeration(order, m.Keys)
    ensures ReadText(map[], Render(m, order)) == Loaded(m, true)
  {
    RoundTrip(map[], m, order);
    assert map[] + m == m;
  }

  /** Comment lines and blank lines are skipped, and a trailing newline
      adds only a blank line: `#...`, ``, `key=value`, `` reads as the one
      entry `key=value`. */
  lemma CommentsAndBlankLinesSkipped(comment: string, key: string, value: string)
    requires comment != [] && comment[0] == '#' && '\n' !in comment
    requires key != [] && key[0] != '#' && '=' !in key && '\n' !in key && '\n' !in value
    ensures ReadText(map[], comment + "\n\n" + Line(key, value) + "\n") == Loaded(map[key := value], true)
  {
    var lines := [comment, "", Line(key, value), ""];
    JoinFourLines(comment, Line(key, value));
    assert '\n' !in Line(key, value);
    SplitAllOfJoin(lines, '\n');
    ReadCommentBlankEntryBlank(comment, key, value);
  }

  lemma JoinFourLines(comment: string, line: string)
    ensures comment + "\n\n" + line + "\n" == Join("\n", [comment, "", line, ""])
  {
    var lines := [comment, "", line, ""];
    assert lines[1..][1..][1..] == [""];
    assert Join("\n", lines[1..][1..]) == line + "\n" + "";
    assert Join("\n", lines[1..]) == "" + "\n" + (line + "\n" + "");
  }

  lemma ReadCommentBlankEntryBlank(comment: string, key: string, value: string)
    requires comment != [] && comment[0] == '#'
    requires key != [] && key[0] != '#' && '=' !in key
    ensures ReadLines(map[], [comment, "", Line(key, value), ""]) == Loaded(map[key := value], true)
  {
    var lines := [comment, "", Line(key, value), ""];
    assert lines[..3][..2][..1][..0] == [];
    assert ReadLines(map[], lines[..3][..2][..1]) == Loaded(map[], true);
    assert ReadLines(map[], lines[..3][..2]) == Loaded(map[], true);
    SplitOnceOfGlued(key, '=', value);
    assert ReadLines(map[], lines[..3]) == Loaded(map[key := value], true);
  }

  /** A single line that is neither blank nor a comment and holds no `=`
      (such as `UEFI:BootOrder`) cannot be read, and the table is left as
      it was. */
  lemma LineWithoutSeparatorRejected(m: map<string, string>, text: string)
    requires text != [] && text[0] != '#' && '=' !in text && '\n' !in text
    ensures ReadText(m, text) == Loaded(m, false)
  {
    assert IndexOf(text, '\n') == |text|;
    assert SplitLines(text) == [text];
    assert [text][..0] == [];
    assert ReadLines(m, []) == Loaded(m, true);
    assert SplitOnce(text, '=') == None;
    assert ReadLine(m, text) == Loaded(m, false);
  }
}
