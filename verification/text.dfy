/** The string primitives the integrity table is built on: GLib's
    `g_strsplit`, fwupd's `fu_strjoin` (a wrapper of `g_strjoinv`) and
    printf's upper-case hexadecimal, stated as functions over `seq<char>`
    from their documented behaviour. */
module Text {
  import opened Wrappers

  /** Index of the first `c` in `s`, or `|s|` when `s` holds no `c`. */
  function IndexOf(s: string, c: char): (i: nat)
    ensures i <= |s|
    ensures forall j :: 0 <= j < i ==> s[j] != c
    ensures i < |s| ==> s[i] == c
    ensures i == |s| <==> c !in s
  {
    if s == [] then 0
    else if s[0] == c then 0
    else 1 + IndexOf(s[1..], c)
  }

  /** The `fu_strjoin` of `parts` with separator `sep`: the parts in order,
      `sep` between neighbours and nowhere else. */
  function Join(sep: string, parts: seq<string>): (s: string)
    ensures parts == [] ==> s == []
    ensures |parts| == 1 ==> s == parts[0]
  {
    if |parts| == 0 then ""
    else if |parts| == 1 then parts[0]
    else parts[0] + sep + Join(sep, parts[1..])
  }

  /** Every piece of `s` between occurrences of `c`, empty pieces included.
      Joining the pieces back with `c` gives `s`, and no piece holds `c`. */
  function SplitAll(s: string, c: char): (parts: seq<string>)
    ensures |parts| >= 1
    ensures forall k :: 0 <= k < |parts| ==> c !in parts[k]
    ensures Join([c], parts) == s
    decreases |s|
  {
    var i := IndexOf(s, c);
    if i == |s| then [s]
    else
      var rest := SplitAll(s[i + 1..], c);
      assert s == s[..i] + [c] + s[i + 1..];
      [s[..i]] + rest
  }

  /** `g_strsplit (s, c, -1)`: GLib splits the empty string into no pieces
      at all, and any other string into all of its pieces. */
  function SplitLines(s: string): (lines: seq<string>)
    ensures s == [] <==> lines == []
    ensures forall k :: 0 <= k < |lines| ==> '\n' !in lines[k]
    ensures s != [] ==> Join("\n", lines) == s
  {
    if s == [] then [] else SplitAll(s, '\n')
  }

  /** `g_strsplit (s, c, 2)` on a non-empty `s`: two tokens, split at the
      first `c`, when `s` holds a `c`; otherwise a single token (`None`). */
  function SplitOnce(s: string, c: char): (r: Option<(string, string)>)
    ensures r.None? <==> c !in s
    ensures r.Some? ==> s == r.value.0 + [c] + r.value.1 && c !in r.value.0
  {
    var i := IndexOf(s, c);
    if i == |s| then None
    else
      assert s == s[..i] + [c] + s[i + 1..];
      Some((s[..i], s[i + 1..]))
  }

  /** Splitting at the first `c` undoes gluing a `c`-free key to a value. */
  lemma SplitOnceOfGlued(key: string, c: char, value: string)
    requires c !in key
    ensures SplitOnce(key + [c] + value, c) == Some((key, value))
  {
    var s := key + [c] + value;
    assert s[|key|] == c;
    var i := IndexOf(s, c);
    assert s[..i] == key;
    assert s[i + 1..] == value;
  }

  /** The first `c` of `key + [c] + value` is the one after `key`. */
  lemma IndexOfGlued(key: string, c: char, value: string)
    requires c !in key
    ensures IndexOf(key + [c] + value, c) == |key|
  {
    var s := key + [c] + value;
    assert s[|key|] == c;
    assert forall j :: 0 <= j < |key| ==> s[j] == key[j];
  }

  /** Splitting undoes joining, as long as no part holds the separator. */
  lemma {:induction false} SplitAllOfJoin(parts: seq<string>, c: char)
    requires |parts| >= 1
    requires forall k :: 0 <= k < |parts| ==> c !in parts[k]
    ensures SplitAll(Join([c], parts), c) == parts
    decreases |parts|
  {
    if |parts| > 1 {
      var tail := Join([c], parts[1..]);
      var s := Join([c], parts);
      assert s == parts[0] + [c] + tail;
      IndexOfGlued(parts[0], c, tail);
      assert s[..|parts[0]|] == parts[0];
      assert s[|parts[0]| + 1..] == tail;
      SplitAllOfJoin(parts[1..], c);
      assert SplitAll(s, c) == [parts[0]] + SplitAll(tail, c);
      assert parts == [parts[0]] + parts[1..];
    } else {
      assert IndexOf(parts[0], c) == |parts[0]|;
    }
  }

  /** The digit printf's `%X` writes for `d`. */
  function HexDigit(d: nat): (ch: char)
    requires d < 16
    ensures '0' <= ch <= '9' || 'A' <= ch <= 'F'
  {
    if d < 10 then ('0' as int + d) as char else ('A' as int + d - 10) as char
  }

  /** The value of one upper-case hexadecimal digit (0 for any other character). */
  function DigitValue(ch: char): nat
  {
    if '0' <= ch <= '9' then ch as int - '0' as int
    else if 'A' <= ch <= 'F' then ch as int - 'A' as int + 10
    else 0
  }

  /** Reading a digit back gives the value printed. */
  lemma DigitRoundTrip(d: nat)
    requires d < 16
    ensures DigitValue(HexDigit(d)) == d
  {
  }

  /** The number an upper-case hexadecimal numeral denotes, most significant digit first. */
  function HexValue(s: string): nat
  {
    if s == [] then 0 else 16 * HexValue(s[..|s| - 1]) + DigitValue(s[|s| - 1])
  }

  function Pow16(w: nat): nat
  {
    if w == 0 then 1 else 16 * Pow16(w - 1)
  }

  /** printf's `%0<width>X` for a number that fits in `width` digits:
      exactly `width` upper-case hexadecimal digits, zero-padded, which
      read back as `n`. */
  function HexDigits(n: nat, width: nat): (s: string)
    requires n < Pow16(width)
    ensures |s| == width
    ensures forall k :: 0 <= k < |s| ==> '0' <= s[k] <= '9' || 'A' <= s[k] <= 'F'
    ensures HexValue(s) == n
  {
    if width == 0 then []
    else
      var s := HexDigits(n / 16, width - 1) + [HexDigit(n % 16)];
      DigitRoundTrip(n % 16);
      assert s[..|s| - 1] == HexDigits(n / 16, width - 1);
      s
  }

  /** printf's `%04X`. */
  function Hex4(n: nat): (s: string)
    requires n < 0x10000
    ensures |s| == 4
    ensures forall k :: 0 <= k < |s| ==> '0' <= s[k] <= '9' || 'A' <= s[k] <= 'F'
    ensures HexValue(s) == n
  {
    assert Pow16(4) == 0x10000;
    HexDigits(n, 4)
  }

  /** Distinct numbers below 0x10000 print differently under `%04X`. */
  lemma Hex4Injective(a: nat, b: nat)
    requires a < 0x10000 && b < 0x10000
    ensures Hex4(a) == Hex4(b) <==> a == b
  {
  }
}
