/** filesys/directory.cc: a fixed table of entries refining a partial map from names to the
    sectors of their headers. */
module Directories {
  import opened Machine
  import opened Storage
  import opened Layout
  import opened OpenFiles

  const NAME_MAX := 31     // FileNameMaxLen
  const ENTRY_SIZE := 136  // sizeof(DirectoryEntry)

  type Gap = s: seq<byte> | |s| == 3 witness [0, 0, 0]
  type NameField = s: seq<byte> | |s| == NAME_MAX + 1 witness seq(NAME_MAX + 1, _ => 0)
  type Unused = s: seq<byte> | |s| == 96 witness seq(96, _ => 0)

  /** A DirectoryEntry as it lies in memory: the padding after inUse and the two names no
      operation looks at travel along. */
  datatype DirEntry = DirEntry(inUse: bool, gap: Gap, sector: int32, name: NameField, unused: Unused)

  /** A C string without its terminator. */
  type CString = s: seq<byte> | 0 !in s witness []

  // ---- Names --------------------------------------------------------------------------

  /** strncmp(a, b, n) == 0 for character arrays a and b. */
  predicate SameChars(a: seq<byte>, b: seq<byte>, n: nat) {
    if n == 0 || a == [] || b == [] then true
    else if a[0] != b[0] then false
    else if a[0] == 0 then true
    else SameChars(a[1..], b[1..], n - 1)
  }

  /** strncpy(field, name, n): the name's first n characters, padded to n with zeros. */
  function CopyChars(field: seq<byte>, name: CString, n: nat): (r: seq<byte>)
    requires n <= |field|
    ensures |r| == |field|
    ensures forall i :: 0 <= i < |field| ==>
      r[i] == if i >= n then field[i] else if i < |name| then name[i] else 0
  {
    if |name| >= n then name[..n] + field[n..]
    else name + seq(n - |name|, _ => 0) + field[n..]
  }

  /** The characters that count of a character array. */
  function Key(a: seq<byte>, n: nat): (k: CString)
    ensures |k| <= n
  {
    if n == 0 || a == [] || a[0] == 0 then [] else [a[0]] + Key(a[1..], n - 1)
  }

  lemma {:induction false} KeyOfString(name: CString, tail: seq<byte>, n: nat)
    requires |name| >= n || (tail != [] && tail[0] == 0)
    ensures Key(name + tail, n) == if |name| >= n then name[..n] else name
  {
    if n > 0 && name != [] {
      assert (name + tail)[1..] == name[1..] + tail;
      KeyOfString(name[1..], tail, n - 1);
    }
  }

  /** Two names are the same to strncmp exactly when their keys are equal. */
  lemma {:induction false} SameCharsSameKey(a: seq<byte>, b: seq<byte>, n: nat)
    requires (|a| >= n || 0 in a) && (|b| >= n || 0 in b)
    ensures SameChars(a, b, n) <==> Key(a, n) == Key(b, n)
  {
    if n > 0 && a[0] == b[0] && a[0] != 0 {
      assert Key(a, n)[1..] == Key(a[1..], n - 1);
      assert Key(b, n)[1..] == Key(b[1..], n - 1);
      SameCharsSameKey(a[1..], b[1..], n - 1);
    } else if n > 0 {
      assert Key(a, n) == [] || Key(a, n)[0] == a[0];
    }
  }

  /** What a caller's name is filed under. */
  function NameKey(name: CString): (k: CString)
    ensures |k| <= NAME_MAX
  {
    Key(name + [0], NAME_MAX)
  }

  function EntryKey(e: DirEntry): CString {
    Key(e.name, NAME_MAX)
  }

  lemma CopiedKey(field: NameField, name: CString)
    ensures Key(CopyChars(field, name, NAME_MAX), NAME_MAX) == NameKey(name)
  {
    KeyOfString(name, [0], NAME_MAX);
    if |name| >= NAME_MAX {
      assert CopyChars(field, name, NAME_MAX) == name[..NAME_MAX] + field[NAME_MAX..];
      KeyOfString(name[..NAME_MAX], field[NAME_MAX..], NAME_MAX);
    } else {
      var tail := seq(NAME_MAX - |name|, _ => 0) + field[NAME_MAX..];
      assert CopyChars(field, name, NAME_MAX) == name + tail;
      KeyOfString(name, tail, NAME_MAX);
    }
  }

  // ---- Tables -------------------------------------------------------------------------

  predicate Names(t: seq<DirEntry>, i: nat, k: CString)
    requires i < |t|
  {
    t[i].inUse && EntryKey(t[i]) == k
  }

  /** The first entry in use under this name, or -1. */
  function IndexOf(t: seq<DirEntry>, k: CString): (i: int)
    ensures -1 <= i < |t|
    ensures i >= 0 ==> Names(t, i, k) && forall j :: 0 <= j < i ==> !Names(t, j, k)
    ensures i == -1 ==> forall j :: 0 <= j < |t| ==> !Names(t, j, k)
  {
    if t == [] then -1
    else
      var i := IndexOf(t[..|t| - 1], k);
      assert forall j :: 0 <= j < |t| - 1 ==> Names(t[..|t| - 1], j, k) == Names(t, j, k);
      if i >= 0 then i
      else if Names(t, |t| - 1, k) then |t| - 1
      else -1
  }

  /** The first entry not in use, or -1. */
  function FreeSlot(t: seq<DirEntry>): (i: int)
    ensures -1 <= i < |t|
    ensures i >= 0 ==> !t[i].inUse && forall j :: 0 <= j < i ==> t[j].inUse
    ensures i == -1 ==> forall j :: 0 <= j < |t| ==> t[j].inUse
  {
    if t == [] then -1
    else
      var i := FreeSlot(t[..|t| - 1]);
      assert forall j :: 0 <= j < |t| - 1 ==> t[..|t| - 1][j] == t[j];
      if i >= 0 then i
      else if !t[|t| - 1].inUse then |t| - 1
      else -1
  }

  function KeysIn(t: seq<DirEntry>): set<CString> {
    set i | 0 <= i < |t| && t[i].inUse :: EntryKey(t[i])
  }

  /** The partial map a table stands for. */
  function NameMap(t: seq<DirEntry>): map<CString, int32> {
    map k | k in KeysIn(t) && IndexOf(t, k) >= 0 :: t[IndexOf(t, k)].sector
  }

  lemma NameMapAt(t: seq<DirEntry>, k: CString)
    ensures k in NameMap(t) <==> IndexOf(t, k) >= 0
    ensures IndexOf(t, k) >= 0 ==> NameMap(t)[k] == t[IndexOf(t, k)].sector
  {
    var i := IndexOf(t, k);
    if i >= 0 { assert Names(t, i, k); }
  }

  /** No name is in use twice. */
  predicate UniqueNames(t: seq<DirEntry>) {
    forall i, j :: 0 <= i < j < |t| && t[i].inUse && t[j].inUse ==> EntryKey(t[i]) != EntryKey(t[j])
  }

  lemma UniqueIndex(t: seq<DirEntry>, i: nat)
    requires UniqueNames(t) && i < |t| && t[i].inUse
    ensures IndexOf(t, EntryKey(t[i])) == i
  {
    var k := EntryKey(t[i]);
    assert Names(t, i, k);
    var j := IndexOf(t, k);
    assert j >= 0 && Names(t, j, k);
  }

  /** The table after Add has filled slot i. */
  function Added(t: seq<DirEntry>, i: nat, name: CString, sector: int32): (t': seq<DirEntry>)
    requires i < |t|
    ensures |t'| == |t|
  {
    t[i := t[i].(inUse := true, name := CopyChars(t[i].name, name, NAME_MAX), sector := sector)]
  }

  function Removed(t: seq<DirEntry>, i: nat): (t': seq<DirEntry>)
    requires i < |t|
    ensures |t'| == |t|
  {
    t[i := t[i].(inUse := false)]
  }

  /** Tables that differ in slot i only. */
  predicate DifferAt(t: seq<DirEntry>, t': seq<DirEntry>, i: nat) {
    && |t| == |t'| && i < |t|
    && forall j :: 0 <= j < |t| && j != i ==> t'[j] == t[j]
  }

  /** A search for k is decided by slot i or does not see it. */
  lemma IndexElsewhere(t: seq<DirEntry>, t': seq<DirEntry>, i: nat, k: CString)
    requires DifferAt(t, t', i) && UniqueNames(t) && UniqueNames(t')
    ensures Names(t', i, k) ==> IndexOf(t', k) == i
    ensures Names(t, i, k) ==> IndexOf(t, k) == i
    ensures !Names(t', i, k) && !Names(t, i, k) ==> IndexOf(t', k) == IndexOf(t, k)
    ensures !Names(t', i, k) && Names(t, i, k) ==> IndexOf(t', k) == -1
    ensures IndexOf(t, k) >= 0 && IndexOf(t, k) != i && IndexOf(t, k) == IndexOf(t', k) ==>
      t'[IndexOf(t, k)] == t[IndexOf(t, k)]
  {
    if Names(t', i, k) { UniqueIndex(t', i); }
    if Names(t, i, k) { UniqueIndex(t, i); }
    var p, q := IndexOf(t, k), IndexOf(t', k);
    assert p >= 0 && p != i ==> Names(t', p, k);
    assert q >= 0 && q != i ==> Names(t, q, k);
  }

  lemma AddedFacts(t: seq<DirEntry>, i: nat, name: CString, sector: int32)
    requires UniqueNames(t) && i < |t| && !t[i].inUse && IndexOf(t, NameKey(name)) == -1
    ensures UniqueNames(Added(t, i, name, sector))
    ensures DifferAt(t, Added(t, i, name, sector), i)
    ensures forall k: CString :: Names(Added(t, i, name, sector), i, k) <==> k == NameKey(name)
    ensures Added(t, i, name, sector)[i].sector == sector
  {
    hide CopyChars, IndexOf, NameKey, EntryKey, Key;
    AddedKey(t, i, name, sector);
    forall j | 0 <= j < |t| && t[j].inUse ensures EntryKey(t[j]) != NameKey(name) {
      AbsentKey(t, NameKey(name), j);
    }
  }

  lemma AddedKey(t: seq<DirEntry>, i: nat, name: CString, sector: int32)
    requires i < |t|
    ensures EntryKey(Added(t, i, name, sector)[i]) == NameKey(name)
  {
    CopiedKey(t[i].name, name);
    hide CopyChars, NameKey, Key;
  }

  lemma AbsentKey(t: seq<DirEntry>, k: CString, j: nat)
    requires IndexOf(t, k) == -1 && j < |t| && t[j].inUse
    ensures EntryKey(t[j]) != k
  {
    hide IndexOf;
    assert !Names(t, j, k);
  }

  lemma AddedAt(t: seq<DirEntry>, i: nat, name: CString, sector: int32, k: CString)
    requires UniqueNames(t) && i < |t| && !t[i].inUse && IndexOf(t, NameKey(name)) == -1
    ensures var t' := Added(t, i, name, sector);
      && (k in NameMap(t') <==> k == NameKey(name) || k in NameMap(t))
      && (k in NameMap(t') ==> NameMap(t')[k] == if k == NameKey(name) then sector else NameMap(t)[k])
  {
    hide *;
    var t' := Added(t, i, name, sector);
    AddedFacts(t, i, name, sector);
    NameMapAt(t, k);
    NameMapAt(t', k);
    IndexElsewhere(t, t', i, k);
    NotInUse(t, i, k);
  }

  lemma NotInUse(t: seq<DirEntry>, i: nat, k: CString)
    requires i < |t|
    ensures !t[i].inUse ==> !Names(t, i, k)
    ensures IndexOf(t, k) == i ==> Names(t, i, k)
  {}

  /** Filling a free slot under a new name adds that one binding. */
  lemma AddedMap(t: seq<DirEntry>, i: nat, name: CString, sector: int32)
    requires UniqueNames(t) && i < |t| && !t[i].inUse && IndexOf(t, NameKey(name)) == -1
    ensures UniqueNames(Added(t, i, name, sector))
    ensures NameMap(Added(t, i, name, sector)) == NameMap(t)[NameKey(name) := sector]
  {
    hide *;
    AddedFacts(t, i, name, sector);
    forall k: CString
      ensures k in NameMap(Added(t, i, name, sector)) <==> k == NameKey(name) || k in NameMap(t)
      ensures k in NameMap(Added(t, i, name, sector)) ==>
        NameMap(Added(t, i, name, sector))[k] == if k == NameKey(name) then sector else NameMap(t)[k]
    {
      AddedAt(t, i, name, sector, k);
    }
  }

  lemma RemovedFacts(t: seq<DirEntry>, i: nat)
    requires UniqueNames(t) && i < |t|
    ensures UniqueNames(Removed(t, i)) && DifferAt(t, Removed(t, i), i)
    ensures forall k: CString :: !Names(Removed(t, i), i, k)
  {}

  lemma RemovedAt(t: seq<DirEntry>, k: CString, x: CString)
    requires UniqueNames(t) && IndexOf(t, k) >= 0
    ensures var t' := Removed(t, IndexOf(t, k));
      && (x in NameMap(t') <==> x != k && x in NameMap(t))
      && (x in NameMap(t') ==> NameMap(t')[x] == NameMap(t)[x])
  {
    hide *;
    var i := IndexOf(t, k);
    var t' := Removed(t, i);
    RemovedFacts(t, i);
    NameMapAt(t, x);
    NameMapAt(t', x);
    IndexElsewhere(t, t', i, x);
    NotInUse(t, i, x);
    NotInUse(t, i, k);
    OneName(t, i, k, x);
  }

  lemma OneName(t: seq<DirEntry>, i: nat, k: CString, x: CString)
    requires i < |t| && Names(t, i, k)
    ensures Names(t, i, x) <==> x == k
  {}

  lemma RemovedMap(t: seq<DirEntry>, k: CString)
    requires UniqueNames(t) && IndexOf(t, k) >= 0
    ensures UniqueNames(Removed(t, IndexOf(t, k)))
    ensures NameMap(Removed(t, IndexOf(t, k))) == NameMap(t) - {k}
  {
    hide *;
    var i := IndexOf(t, k);
    RemovedFacts(t, i);
    forall x: CString
      ensures x in NameMap(Removed(t, i)) <==> x != k && x in NameMap(t)
      ensures x in NameMap(Removed(t, i)) ==> NameMap(Removed(t, i))[x] == NameMap(t)[x]
    {
      RemovedAt(t, k, x);
    }
  }

  /** Adding a name and removing it gives the same map back. */
  lemma RemoveUndoesAdd(t: seq<DirEntry>, name: CString, sector: int32)
    requires UniqueNames(t) && IndexOf(t, NameKey(name)) == -1 && FreeSlot(t) >= 0
    ensures var t' := Added(t, FreeSlot(t), name, sector);
      IndexOf(t', NameKey(name)) >= 0 && NameMap(Removed(t', IndexOf(t', NameKey(name)))) == NameMap(t)
  {
    var t' := Added(t, FreeSlot(t), name, sector);
    AddedMap(t, FreeSlot(t), name, sector);
    NameMapAt(t, NameKey(name));
    NameMapAt(t', NameKey(name));
    RemovedMap(t', NameKey(name));
  }

  // ---- Tables in memory and in a file -----------------------------------------------------

  function EncodeEntry(e: DirEntry): (bs: seq<byte>)
    ensures |bs| == ENTRY_SIZE
  {
    [if e.inUse then 1 else 0] + e.gap + EncodeInts([e.sector]) + e.name + e.unused
  }

  function DecodeEntry(bs: seq<byte>): DirEntry
    requires |bs| == ENTRY_SIZE
  {
    DirEntry(bs[0] != 0, bs[1..4], DecodeInts(bs[4..8])[0], bs[8..40], bs[40..])
  }

  function EncodeTable(t: seq<DirEntry>): (bs: seq<byte>)
    ensures |bs| == ENTRY_SIZE * |t|
  {
    if t == [] then [] else EncodeEntry(t[0]) + EncodeTable(t[1..])
  }

  function DecodeTable(bs: seq<byte>): (t: seq<DirEntry>)
    ensures |t| == |bs| / ENTRY_SIZE
  {
    if |bs| < ENTRY_SIZE then [] else [DecodeEntry(bs[..ENTRY_SIZE])] + DecodeTable(bs[ENTRY_SIZE..])
  }

  lemma DecodeEncodeEntry(e: DirEntry)
    ensures DecodeEntry(EncodeEntry(e)) == e
  {
    DecodeEncodeInts([e.sector]);
    var bs := EncodeEntry(e);
    hide EncodeInts, DecodeInts;
    assert bs[1..4] == e.gap && bs[4..8] == EncodeInts([e.sector]);
    assert bs[8..40] == e.name && bs[40..] == e.unused;
  }

  lemma {:induction false} DecodeEncodeTable(t: seq<DirEntry>)
    ensures DecodeTable(EncodeTable(t)) == t
  {
    hide EncodeEntry, DecodeEntry;
    if t != [] {
      var bs := EncodeTable(t);
      DecodeEncodeTable(t[1..]);
      DecodeEncodeEntry(t[0]);
      assert bs[..ENTRY_SIZE] == EncodeEntry(t[0]) && bs[ENTRY_SIZE..] == EncodeTable(t[1..]);
    }
  }

  /** An entry on its bytes: inUse in the first, the sector from the fifth, the name from the
      ninth. */
  predicate EntryLies(bs: seq<byte>, e: DirEntry)
    requires |bs| == ENTRY_SIZE
  {
    (bs[0] != 0 <==> e.inUse) && WordLies(bs, 4, e.sector) && bs[8..8 + NAME_MAX + 1] == e.name
  }

  /** The entries of a table, as many as there are bytes for. */
  predicate TableLies(bs: seq<byte>, t: seq<DirEntry>) {
    forall j :: 0 <= j < |t| && ENTRY_SIZE * (j + 1) <= |bs| ==>
      EntryLies(bs[ENTRY_SIZE * j..ENTRY_SIZE * (j + 1)], t[j])
  }

  lemma EncodedEntryLies(e: DirEntry)
    ensures EntryLies(EncodeEntry(e), e)
  {
    var bs, word := EncodeEntry(e), EncodeInts([e.sector]);
    EncodedLies([e.sector], 0);
    hide EncodeInts;
    assert bs[8..40] == e.name;
    assert bs[4] == word[0] && bs[5] == word[1] && bs[6] == word[2] && bs[7] == word[3];
  }

  lemma DecodedEntryLies(bs: seq<byte>)
    requires |bs| == ENTRY_SIZE
    ensures EntryLies(bs, DecodeEntry(bs))
  {
    IntLies(bs[4..8], 0);
    hide IntAt;
  }

  /** One more entry before the bytes of a table. */
  lemma TableLiesMore(first: seq<byte>, e: DirEntry, bs: seq<byte>, t: seq<DirEntry>)
    requires |first| == ENTRY_SIZE && EntryLies(first, e) && TableLies(bs, t)
    ensures TableLies(first + bs, [e] + t)
  {
    hide EntryLies;
    var more := first + bs;
    forall j | 0 <= j < |t| + 1 && ENTRY_SIZE * (j + 1) <= |more|
      ensures EntryLies(more[ENTRY_SIZE * j..ENTRY_SIZE * (j + 1)], ([e] + t)[j])
    {
      if j == 0 {
        assert more[ENTRY_SIZE * j..ENTRY_SIZE * (j + 1)] == first;
      } else {
        assert more[ENTRY_SIZE * j..ENTRY_SIZE * (j + 1)] == bs[ENTRY_SIZE * (j - 1)..ENTRY_SIZE * (j - 1 + 1)];
      }
    }
  }

  lemma {:induction false} EncodedTableLies(t: seq<DirEntry>)
    ensures TableLies(EncodeTable(t), t)
  {
    hide EntryLies, EncodeEntry, TableLies;
    if t == [] {
      NoEntriesLie([]);
    } else {
      EncodedTableLies(t[1..]);
      EncodedEntryLies(t[0]);
      TableLiesMore(EncodeEntry(t[0]), t[0], EncodeTable(t[1..]), t[1..]);
      assert [t[0]] + t[1..] == t;
    }
  }

  lemma NoEntriesLie(bs: seq<byte>)
    ensures TableLies(bs, [])
  {}

  /** Bytes that begin with the bytes of a table. */
  lemma TableLiesIn(bs: seq<byte>, file: seq<byte>, t: seq<DirEntry>)
    requires TableLies(bs, t) && |bs| == ENTRY_SIZE * |t|
    requires Begins(file, bs)
    ensures TableLies(file, t)
  {
    hide EntryLies;
    forall j | 0 <= j < |t| && ENTRY_SIZE * (j + 1) <= |file|
      ensures EntryLies(file[ENTRY_SIZE * j..ENTRY_SIZE * (j + 1)], t[j])
    {
      assert file[ENTRY_SIZE * j..ENTRY_SIZE * (j + 1)] == bs[ENTRY_SIZE * j..ENTRY_SIZE * (j + 1)];
    }
  }

  lemma {:induction false} DecodedTableLies(bs: seq<byte>)
    ensures TableLies(bs, DecodeTable(bs))
  {
    hide EntryLies, DecodeEntry, TableLies;
    if |bs| < ENTRY_SIZE {
      NoEntriesLie(bs);
    } else {
      var first, rest := bs[..ENTRY_SIZE], bs[ENTRY_SIZE..];
      DecodedTableLies(rest);
      DecodedEntryLies(first);
      TableLiesMore(first, DecodeEntry(first), rest, DecodeTable(rest));
      assert first + rest == bs;
    }
  }

  lemma OverlaidTableLies(bytes: seq<byte>, file: seq<byte>)
    requires |bytes| % ENTRY_SIZE == 0
    ensures TableLies(file, DecodeTable(Overlay(bytes, file)))
  {
    hide DecodeTable, TableLies;
    DecodedTableLies(Overlay(bytes, file));
    TableLiesIn(Overlay(bytes, file), file, DecodeTable(Overlay(bytes, file)));
  }

  lemma WrittenTableLies(g: Geometry, d: Image, d': Image, h: Header, t: seq<DirEntry>)
    requires WroteTo(g, d, d', h, EncodeTable(t))
    ensures WellFormed(g, d', h) && TableLies(FileBytes(g, d', h), t)
  {
    hide WellFormed, FileBytes, EncodeTable, TableLies;
    EncodedTableLies(t);
    WrittenPrefix(g, d, d', h, EncodeTable(t));
    FileFacts(g, d', h);
    TableLiesIn(EncodeTable(t), FileBytes(g, d', h), t);
  }

  /** The first entry not in use has taken the name and the sector, and no other changed. */
  ghost predicate FirstFreeTakes(t: seq<DirEntry>, t': seq<DirEntry>, name: CString, sector: int32) {
    |t'| == |t| && exists i ::
      && 0 <= i < |t| && !t[i].inUse && (forall j :: 0 <= j < i ==> t[j].inUse)
      && t'[i].inUse && t'[i].sector == sector && EntryKey(t'[i]) == NameKey(name)
      && (forall j :: 0 <= j < |t| && j != i ==> t'[j] == t[j])
  }

  lemma AddedTakes(t: seq<DirEntry>, name: CString, sector: int32)
    requires FreeSlot(t) >= 0
    ensures FirstFreeTakes(t, Added(t, FreeSlot(t), name, sector), name, sector)
  {
    AddedKey(t, FreeSlot(t), name, sector);
    hide CopyChars, NameKey, Key, EntryKey;
    var i, t' := FreeSlot(t), Added(t, FreeSlot(t), name, sector);
    assert t'[i].inUse && t'[i].sector == sector && EntryKey(t'[i]) == NameKey(name);
  }

  class Directory {
    const tableSize: nat
    const table: array<DirEntry>

    ghost predicate Valid()
      reads this
    {
      table.Length == tableSize
    }

    /** An empty directory: the entries are whatever memory held, but not in use. */
    constructor (size: nat)
      ensures Valid() && tableSize == size && fresh(table)
      ensures forall i :: 0 <= i < size ==> !table[i].inUse
    {
      tableSize := size;
      table := new DirEntry[size](_ => DirEntry(true, [0, 0, 0], 0, seq(NAME_MAX + 1, _ => 0), seq(96, _ => 0)));
      new;
      for i := 0 to size
        invariant forall j :: 0 <= j < i ==> !table[j].inUse
      {
        table[i] := table[i].(inUse := false);
      }
    }

    method FetchFrom(disk: Disk, file: OpenFile)
      requires Valid() && ENTRY_SIZE * tableSize <= MAX_INT
      requires file.Valid() && disk.Valid() && disk.g == file.g && WellFormed(file.g, disk.data, file.hdr.View())
      modifies table
      ensures table[..] ==
        DecodeTable(Overlay(EncodeTable(old(table[..])), FileBytes(file.g, disk.data, file.hdr.View())))
      ensures TableLies(FileBytes(file.g, disk.data, file.hdr.View()), table[..])
    {
      hide WellFormed, FileBytes, DecodeTable, EncodeTable, TableLies, Overlay;
      OverlaidTableLies(EncodeTable(table[..]), FileBytes(file.g, disk.data, file.hdr.View()));
      var bytes := ReadOver(disk, file, EncodeTable(table[..]));
      var t := DecodeTable(bytes);
      forall i | 0 <= i < tableSize { table[i] := t[i]; }
      assert table[..] == t;
    }

    method WriteBack(disk: Disk, file: OpenFile)
      requires Valid() && ENTRY_SIZE * tableSize <= MAX_INT
      requires file.Valid() && disk.Valid() && disk.g == file.g && WellFormed(file.g, disk.data, file.hdr.View())
      requires file.g.OffsetsFit()
      modifies disk
      ensures disk.Valid()
      ensures WroteTo(file.g, old(disk.data), disk.data, file.hdr.View(), EncodeTable(table[..]))
      ensures WellFormed(file.g, disk.data, file.hdr.View())
      ensures TableLies(FileBytes(file.g, disk.data, file.hdr.View()), table[..])
    {
      hide WellFormed, EncodeTable, WroteTo, TableLies, FileBytes;
      ghost var d, h := disk.data, file.hdr.View();
      WriteOver(disk, file, EncodeTable(table[..]));
      assert file.hdr.View() == h;
      WrittenTableLies(file.g, d, disk.data, h, table[..]);
    }

    method FindIndex(name: CString) returns (index: int)
      requires Valid()
      ensures index == IndexOf(table[..], NameKey(name))
    {
      ghost var t := table[..];
      var i := 0;
      while i < tableSize
        invariant 0 <= i <= tableSize && IndexOf(t[..i], NameKey(name)) == -1
      {
        SameCharsSameKey(table[i].name, name + [0], NAME_MAX);
        if table[i].inUse && SameChars(table[i].name, name + [0], NAME_MAX) {
          FoundAt(t, i, NameKey(name));
          return i;
        }
        assert t[..i + 1][..i] == t[..i];
        i := i + 1;
      }
      assert t[..i] == t;
      return -1;
    }

    method Find(name: CString) returns (sector: int)
      requires Valid()
      ensures var m := NameMap(table[..]);
        sector == if NameKey(name) in m then m[NameKey(name)] else -1
    {
      NameMapAt(table[..], NameKey(name));
      var i := FindIndex(name);
      if i != -1 { return table[i].sector; }
      return -1;
    }

    /** FALSE, and no change, exactly when the name is taken or the table full; otherwise the
        first free entry takes the name. */
    method Add(name: CString, newSector: int32) returns (ok: bool)
      requires Valid()
      modifies table
      ensures var t := old(table[..]);
        && (ok <==> IndexOf(t, NameKey(name)) == -1 && FreeSlot(t) != -1)
        && table[..] == (if ok then Added(t, FreeSlot(t), name, newSector) else t)
        && (ok <==> NameKey(name) !in NameMap(t) && exists i :: 0 <= i < |t| && !t[i].inUse)
      ensures ok ==> FirstFreeTakes(old(table[..]), table[..], name, newSector)
    {
      NameMapAt(table[..], NameKey(name));
      ghost var t := table[..];
      var index := FindIndex(name);
      if index != -1 { return false; }
      var i := 0;
      while i < tableSize
        invariant 0 <= i <= tableSize && FreeSlot(t[..i]) == -1 && table[..] == t
      {
        if !table[i].inUse {
          FreeAt(t, i);
          AddedTakes(t, name, newSector);
          table[i] := table[i].(inUse := true, name := CopyChars(table[i].name, name, NAME_MAX), sector := newSector);
          return true;
        }
        assert t[..i + 1][..i] == t[..i];
        i := i + 1;
      }
      assert t[..i] == t;
      return false;
    }

    method Remove(name: CString) returns (ok: bool)
      requires Valid()
      modifies table
      ensures var t := old(table[..]);
        && (ok <==> IndexOf(t, NameKey(name)) != -1)
        && table[..] == (if ok then Removed(t, IndexOf(t, NameKey(name))) else t)
        && (ok <==> NameKey(name) in NameMap(t))
      ensures forall i :: 0 <= i < tableSize ==>
        || table[i] == old(table[i])
        || (EntryKey(old(table[i])) == NameKey(name) && table[i] == old(table[i]).(inUse := false))
    {
      NameMapAt(table[..], NameKey(name));
      var i := FindIndex(name);
      if i == -1 { return false; }
      table[i] := table[i].(inUse := false);
      return true;
    }
  }

  lemma FoundAt(t: seq<DirEntry>, i: nat, k: CString)
    requires i < |t| && IndexOf(t[..i], k) == -1 && Names(t, i, k)
    ensures IndexOf(t, k) == i
  {
    var j := IndexOf(t, k);
    assert 0 <= j < i ==> Names(t[..i], j, k);
  }

  lemma FreeAt(t: seq<DirEntry>, i: nat)
    requires i < |t| && FreeSlot(t[..i]) == -1 && !t[i].inUse
    ensures FreeSlot(t) == i
  {
    assert forall x :: 0 <= x < i ==> t[..i][x] == t[x];
  }
}
