/** What the collector measures: which measurement ids it derives from the
    EFI variable store and the ACPI table store, and which blob each id's
    digest is taken of. The stores are maps (an absent key is a variable or
    table that cannot be read) and the SHA-256 digest is a parameter. */
module Measurements {
  import opened Text

  type Bytes = seq<bv8>

  /** The two variable namespaces read: the EFI global-variable GUID and the
      image-security-database GUID. */
  datatype VarNamespace = EfiGlobal | SecurityDatabase

  /** An EFI variable is addressed by its namespace and its name. */
  datatype VarKey = VarKey(ns: VarNamespace, name: string)

  /** The important variables, measured whenever they can be read. */
  const ImportantKeys: seq<VarKey> := [
    VarKey(EfiGlobal, "BootOrder"),
    VarKey(EfiGlobal, "BootCurrent"),
    VarKey(EfiGlobal, "KEK"),
    VarKey(EfiGlobal, "PK"),
    VarKey(SecurityDatabase, "db"),
    VarKey(SecurityDatabase, "dbx")
  ]

  /** The Boot#### scan visits slots 0 up to, but not including, this bound. */
  const BootSlotBound: nat := 0xFF

  /** The ACPI tables measured when present and non-empty. */
  const AcpiTables: seq<string> := ["SLIC"]

  function UefiId(name: string): string { "UEFI:" + name }

  function AcpiId(table: string): string { "ACPI:" + table }

  /** The name of boot slot `i`, as `Boot%04X` prints it. */
  function BootName(i: nat): (name: string)
    requires i < 0x10000
    ensures |name| == 8 && name[..4] == "Boot"
    ensures HexValue(name[4..]) == i
  {
    assert ("Boot" + Hex4(i))[4..] == Hex4(i);
    "Boot" + Hex4(i)
  }

  /** The four characters after `Boot` are upper-case hexadecimal digits. */
  lemma BootNameDigits(i: nat)
    requires i < 0x10000
    ensures forall k :: 4 <= k < 8 ==> '0' <= BootName(i)[k] <= '9' || 'A' <= BootName(i)[k] <= 'F'
  {
    assert BootName(i)[4..] == Hex4(i);
    assert forall k :: 4 <= k < 8 ==> BootName(i)[k] == Hex4(i)[k - 4];
  }

  function BootKey(i: nat): VarKey
    requires i < 0x10000
  {
    VarKey(EfiGlobal, BootName(i))
  }

  lemma PrefixedIdInjective(prefix: string, a: string, b: string)
    ensures prefix + a == prefix + b <==> a == b
  {
    if prefix + a == prefix + b {
      assert (prefix + a)[|prefix|..] == a;
      assert (prefix + b)[|prefix|..] == b;
    }
  }

  /** Distinct important variables have distinct ids. */
  lemma ImportantIdsDistinct(n: nat)
    requires n < |ImportantKeys|
    ensures forall k :: 0 <= k < n ==> UefiId(ImportantKeys[k].name) != UefiId(ImportantKeys[n].name)
  {
    forall k | 0 <= k < n
      ensures UefiId(ImportantKeys[k].name) != UefiId(ImportantKeys[n].name)
    {
      PrefixedIdInjective("UEFI:", ImportantKeys[k].name, ImportantKeys[n].name);
    }
  }

  /** The entries of the first `n` important variables: `UEFI:<name>` with
      the digest of each one the store holds, even a zero-length one, and
      nothing else. */
  ghost function ImportantEntries(vars: map<VarKey, Bytes>, digest: Bytes -> string, n: nat): (m: map<string, string>)
    requires n <= |ImportantKeys|
    ensures forall k :: 0 <= k < n && ImportantKeys[k] in vars ==>
      UefiId(ImportantKeys[k].name) in m && m[UefiId(ImportantKeys[k].name)] == digest(vars[ImportantKeys[k]])
    ensures forall id :: id in m ==>
      exists k :: 0 <= k < n && ImportantKeys[k] in vars && id == UefiId(ImportantKeys[k].name)
  {
    if n == 0 then map[]
    else
      var m := ImportantEntries(vars, digest, n - 1);
      var key := ImportantKeys[n - 1];
      ImportantIdsDistinct(n - 1);
      if key in vars then m[UefiId(key.name) := digest(vars[key])] else m
  }

  /** The names of the slots the Boot#### scan visits, in scan order. */
  function BootNames(): seq<string>
  {
    seq(BootSlotBound, i requires 0 <= i < BootSlotBound => BootName(i))
  }

  /** Distinct numbers print as distinct slot names. */
  lemma BootNameInjective(i: nat, j: nat)
    requires i < 0x10000 && j < 0x10000 && i != j
    ensures BootName(i) != BootName(j)
  {
  }

  lemma BootNamesDistinct()
    ensures forall i, j :: 0 <= i < j < |BootNames()| ==> BootNames()[i] != BootNames()[j]
  {
    forall i, j | 0 <= i < j < |BootNames()| ensures BootNames()[i] != BootNames()[j] {
      BootNameInjective(i, j);
    }
  }

  /** The entries of the first `n` slots of a scan over the slot variables
      `names`, one slot at a time: a slot whose variable exists and is
      non-empty gives `UEFI:<name>` with the digest of the variable. */
  ghost function SlotEntries(vars: map<VarKey, Bytes>, digest: Bytes -> string, names: seq<string>, n: nat): map<string, string>
    requires n <= |names|
  {
    if n == 0 then map[]
    else
      var m := SlotEntries(vars, digest, names, n - 1);
      var key := VarKey(EfiGlobal, names[n - 1]);
      if key in vars && |vars[key]| > 0 then m[UefiId(names[n - 1]) := digest(vars[key])] else m
  }

  /** Scanning one more slot updates a table holding `base` and the first
      `i` slots' entries with that slot's entry, if it has one. */
  lemma SlotEntriesStep(base: map<string, string>, vars: map<VarKey, Bytes>, digest: Bytes -> string, names: seq<string>, i: nat)
    requires i < |names|
    ensures VarKey(EfiGlobal, names[i]) in vars && |vars[VarKey(EfiGlobal, names[i])]| > 0 ==>
      base + SlotEntries(vars, digest, names, i + 1)
        == (base + SlotEntries(vars, digest, names, i))[UefiId(names[i]) := digest(vars[VarKey(EfiGlobal, names[i])])]
    ensures !(VarKey(EfiGlobal, names[i]) in vars && |vars[VarKey(EfiGlobal, names[i])]| > 0) ==>
      base + SlotEntries(vars, digest, names, i + 1) == base + SlotEntries(vars, digest, names, i)
  {
  }

  /** With distinct slot names, every existing non-empty slot among the
      first `n` gives its id with the digest of its variable. */
  lemma {:induction false} SlotEntriesComplete(vars: map<VarKey, Bytes>, digest: Bytes -> string, names: seq<string>, n: nat)
    requires n <= |names|
    requires forall i, j :: 0 <= i < j < |names| ==> names[i] != names[j]
    ensures forall i :: 0 <= i < n && VarKey(EfiGlobal, names[i]) in vars && |vars[VarKey(EfiGlobal, names[i])]| > 0 ==>
      UefiId(names[i]) in SlotEntries(vars, digest, names, n) &&
      SlotEntries(vars, digest, names, n)[UefiId(names[i])] == digest(vars[VarKey(EfiGlobal, names[i])])
  {
    if n > 0 {
      SlotEntriesComplete(vars, digest, names, n - 1);
      forall i | 0 <= i < n - 1 ensures UefiId(names[i]) != UefiId(names[n - 1]) {
        PrefixedIdInjective("UEFI:", names[i], names[n - 1]);
      }
    }
  }

  /** The first `n` slots give no id other than those of existing,
      non-empty slot variables. */
  lemma {:induction false} SlotEntriesSound(vars: map<VarKey, Bytes>, digest: Bytes -> string, names: seq<string>, n: nat)
    requires n <= |names|
    ensures forall id :: id in SlotEntries(vars, digest, names, n) ==>
      exists i :: 0 <= i < n && VarKey(EfiGlobal, names[i]) in vars && |vars[VarKey(EfiGlobal, names[i])]| > 0 && id == UefiId(names[i])
  {
    if n > 0 {
      SlotEntriesSound(vars, digest, names, n - 1);
    }
  }

  /** Everything the Boot#### scan inserts. */
  ghost function BootEntries(vars: map<VarKey, Bytes>, digest: Bytes -> string): map<string, string>
  {
    SlotEntries(vars, digest, BootNames(), |BootNames()|)
  }

  /** The Boot#### scan gives `UEFI:Boot%04X` with the digest of each slot
      in 0..0xFE whose variable exists and is non-empty, and nothing else. */
  lemma BootEntriesExact(vars: map<VarKey, Bytes>, digest: Bytes -> string)
    ensures forall i :: 0 <= i < BootSlotBound && BootKey(i) in vars && |vars[BootKey(i)]| > 0 ==>
      UefiId(BootName(i)) in BootEntries(vars, digest) &&
      BootEntries(vars, digest)[UefiId(BootName(i))] == digest(vars[BootKey(i)])
    ensures forall id :: id in BootEntries(vars, digest) ==>
      exists i :: 0 <= i < BootSlotBound && BootKey(i) in vars && |vars[BootKey(i)]| > 0 && id == UefiId(BootName(i))
  {
    BootNamesDistinct();
    SlotEntriesComplete(vars, digest, BootNames(), |BootNames()|);
    SlotEntriesSound(vars, digest, BootNames(), |BootNames()|);
    forall i | 0 <= i < BootSlotBound ensures BootNames()[i] == BootName(i) && BootKey(i) == VarKey(EfiGlobal, BootNames()[i]) {
    }
  }

  /** The entries of the first `n` ACPI tables: `ACPI:<table>` with the
      digest of each table that can be read and is non-empty, and nothing
      else. */
  ghost function AcpiEntries(tables: map<string, Bytes>, digest: Bytes -> string, n: nat): (m: map<string, string>)
    requires n <= |AcpiTables|
    ensures forall k :: 0 <= k < n && AcpiTables[k] in tables && |tables[AcpiTables[k]]| > 0 ==>
      AcpiId(AcpiTables[k]) in m && m[AcpiId(AcpiTables[k])] == digest(tables[AcpiTables[k]])
    ensures forall id :: id in m ==>
      exists k :: 0 <= k < n && AcpiTables[k] in tables && |tables[AcpiTables[k]]| > 0 && id == AcpiId(AcpiTables[k])
  {
    if n == 0 then map[]
    else
      var m := AcpiEntries(tables, digest, n - 1);
      var table := AcpiTables[n - 1];
      if table in tables && |tables[table]| > 0 then m[AcpiId(table) := digest(tables[table])] else m
  }

  /** Everything one collection run inserts, UEFI first and ACPI second. */
  ghost function Collected(vars: map<VarKey, Bytes>, tables: map<string, Bytes>, digest: Bytes -> string): map<string, string>
  {
    ImportantEntries(vars, digest, |ImportantKeys|)
      + BootEntries(vars, digest)
      + AcpiEntries(tables, digest, |AcpiTables|)
  }

  /** The three sources never produce the same id: the important names are
      not eight characters long like `Boot%04X`, and `UEFI:` is not `ACPI:`. */
  lemma SourcesDisjoint(vars: map<VarKey, Bytes>, tables: map<string, Bytes>, digest: Bytes -> string)
    ensures ImportantEntries(vars, digest, |ImportantKeys|).Keys !! BootEntries(vars, digest).Keys
    ensures ImportantEntries(vars, digest, |ImportantKeys|).Keys !! AcpiEntries(tables, digest, |AcpiTables|).Keys
    ensures BootEntries(vars, digest).Keys !! AcpiEntries(tables, digest, |AcpiTables|).Keys
  {
    BootEntriesExact(vars, digest);
    forall k, i | 0 <= k < |ImportantKeys| && 0 <= i < BootSlotBound
      ensures UefiId(ImportantKeys[k].name) != UefiId(BootName(i))
    {
      PrefixedIdInjective("UEFI:", ImportantKeys[k].name, BootName(i));
    }
    forall name, t | t in AcpiTables ensures UefiId(name) != AcpiId(t) {
      assert UefiId(name)[0] != AcpiId(t)[0];
    }
  }

  /** The id-naming rule of the collector, in both directions: it inserts
      `UEFI:<name>` with the digest of each important variable the store
      holds (zero-length ones included), `UEFI:Boot%04X` with the digest of
      each non-empty variable in slots 0..0xFE, `ACPI:<table>` with the
      digest of each non-empty table, and no other id. */
  lemma CollectedIds(vars: map<VarKey, Bytes>, tables: map<string, Bytes>, digest: Bytes -> string)
    ensures forall k :: 0 <= k < |ImportantKeys| && ImportantKeys[k] in vars ==>
      UefiId(ImportantKeys[k].name) in Collected(vars, tables, digest) &&
      Collected(vars, tables, digest)[UefiId(ImportantKeys[k].name)] == digest(vars[ImportantKeys[k]])
    ensures forall i :: 0 <= i < BootSlotBound && BootKey(i) in vars && |vars[BootKey(i)]| > 0 ==>
      UefiId(BootName(i)) in Collected(vars, tables, digest) &&
      Collected(vars, tables, digest)[UefiId(BootName(i))] == digest(vars[BootKey(i)])
    ensures forall k :: 0 <= k < |AcpiTables| && AcpiTables[k] in tables && |tables[AcpiTables[k]]| > 0 ==>
      AcpiId(AcpiTables[k]) in Collected(vars, tables, digest) &&
      Collected(vars, tables, digest)[AcpiId(AcpiTables[k])] == digest(tables[AcpiTables[k]])
    ensures forall id :: id in Collected(vars, tables, digest) ==>
      (exists k :: 0 <= k < |ImportantKeys| && ImportantKeys[k] in vars && id == UefiId(ImportantKeys[k].name)) ||
      (exists i :: 0 <= i < BootSlotBound && BootKey(i) in vars && |vars[BootKey(i)]| > 0 && id == UefiId(BootName(i))) ||
      (exists k :: 0 <= k < |AcpiTables| && AcpiTables[k] in tables && |tables[AcpiTables[k]]| > 0 && id == AcpiId(AcpiTables[k]))
  {
    SourcesDisjoint(vars, tables, digest);
    BootEntriesExact(vars, digest);
    var important := ImportantEntries(vars, digest, |ImportantKeys|);
    var boot := BootEntries(vars, digest);
    var acpi := AcpiEntries(tables, digest, |AcpiTables|);
    forall k | 0 <= k < |ImportantKeys| && ImportantKeys[k] in vars
      ensures UefiId(ImportantKeys[k].name) in important
      ensures important[UefiId(ImportantKeys[k].name)] == digest(vars[ImportantKeys[k]])
    {
    }
    forall i | 0 <= i < BootSlotBound && BootKey(i) in vars && |vars[BootKey(i)]| > 0
      ensures UefiId(BootName(i)) in boot
      ensures boot[UefiId(BootName(i))] == digest(vars[BootKey(i)])
    {
    }
  }

  /** The last slot the scan visits is printed `Boot00FE`. */
  lemma LastBootSlotName()
    ensures BootName(BootSlotBound - 1) == "Boot00FE"
  {
    assert HexDigit(0) == '0' && HexDigit(15) == 'F' && HexDigit(14) == 'E';
    assert HexDigits(0, 1) == "0";
    assert HexDigits(0, 2) == "00";
    assert HexDigits(15, 3) == "00F";
    assert HexDigits(0xFE, 4) == "00FE";
  }

  /** The scan stops before slot 0xFF: `UEFI:Boot00FF` is never measured,
      whatever the stores hold. */
  lemma SlotFFNeverMeasured(vars: map<VarKey, Bytes>, tables: map<string, Bytes>, digest: Bytes -> string)
    ensures UefiId("Boot00FF") !in Collected(vars, tables, digest)
  {
    var id := UefiId("Boot00FF");
    NotAnImportantId("Boot00FF");
    NotAScannedSlot();
    assert id !in ImportantEntries(vars, digest, |ImportantKeys|);
    BootEntriesExact(vars, digest);
    assert id !in BootEntries(vars, digest);
    assert id[0] == 'U';
  }

  /** No important variable is named like a boot slot. */
  lemma NotAnImportantId(name: string)
    requires |name| == 8
    ensures forall k :: 0 <= k < |ImportantKeys| ==> UefiId(name) != UefiId(ImportantKeys[k].name)
  {
    forall k | 0 <= k < |ImportantKeys| ensures UefiId(name) != UefiId(ImportantKeys[k].name) {
      PrefixedIdInjective("UEFI:", name, ImportantKeys[k].name);
    }
  }

  /** No slot below the bound prints as `Boot00FF`. */
  lemma NotAScannedSlot()
    ensures forall i :: 0 <= i < BootSlotBound ==> UefiId("Boot00FF") != UefiId(BootName(i))
  {
    forall i | 0 <= i < BootSlotBound ensures UefiId("Boot00FF") != UefiId(BootName(i)) {
      PrefixedIdInjective("UEFI:", "Boot00FF", BootName(i));
      HexValueOf00FF();
    }
  }

  lemma HexValueOf00FF()
    ensures HexValue("00FF") == 0xFF
  {
    assert "00FF"[..3] == "00F";
    assert "00F"[..2] == "00";
    assert "00"[..1] == "0";
    assert "0"[..0] == "";
  }

  /** With both stores empty, nothing is measured. */
  lemma NothingToMeasure(digest: Bytes -> string)
    ensures Collected(map[], map[], digest) == map[]
  {
    BootEntriesExact(map[], digest);
    assert BootEntries(map[], digest).Keys == {};
  }
}
