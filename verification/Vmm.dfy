/**
 kernel/modules/memory/vmm.c: two-level page tables reached through the directory's own last slot.

 Physical memory is a sequence of 4096 frames of 1024 words. The code below never touches it directly: it
 reads and writes virtual addresses, and Peek and Poke walk the tables for it as the processor does.
 */
module Vmm {
  import opened Bits
  import opened Sets
  import opened Pmm
  import Space

  type Table = Space.Table

  type Ram = seq<seq<word>>

  const PAGE_DIR_POS := 0xFFFF_F000
  const PAGE_TABLES_POS := 0xFFC0_0000

  // ---- page table entries ----

  predicate Present(e: word) {
    e % 2 == 1
  }

  function FrameOf(e: word): nat {
    e / 4096
  }

  /** phys_adr | (flags & 0xFFF). */
  function Entry(phys: word, flags: word): (e: word)
    ensures FrameOf(e) == FrameOf(phys) && (Present(e) <==> Present(phys) || Present(flags))
  {
    hide LowBits;
    EntryParts(phys, flags);
    phys / 4096 * 4096 + LowBits(phys, flags)
  }

  function LowBits(phys: word, flags: word): nat {
    BitOr(phys % 4096, flags % 4096, 12)
  }

  lemma EntryParts(phys: word, flags: word)
    ensures LowBits(phys, flags) < 4096
    ensures LowBits(phys, flags) % 2 == 1 <==> Present(phys) || Present(flags)
  {
    hide BitOr;
    assert Shl1(6) == 64 && Shl1(12) == 4096;
    OrParity(phys % 4096, flags % 4096, 12);
  }

  /** The word map_page writes: the frame of the one operand, and each low bit that either operand has. */
  ghost predicate IsEntry(e: word, phys: word, flags: word) {
    FrameOf(e) == FrameOf(phys) && forall k :: 0 <= k < 12 ==> (BitSet(e, k) <==> BitSet(phys, k) || BitSet(flags, k))
  }

  lemma EntryBits(phys: word, flags: word)
    ensures IsEntry(Entry(phys, flags), phys, flags)
  {
    var e, low := Entry(phys, flags), LowBits(phys, flags);
    EntryParts(phys, flags);
    assert Shl1(6) == 64 && Shl1(12) == 4096;
    assert e % 4096 == low;
    forall k | 0 <= k < 12 ensures BitSet(e, k) <==> BitSet(phys, k) || BitSet(flags, k) {
      LowBitsOfByte(e, 12, k);
      LowBitsOfByte(phys, 12, k);
      LowBitsOfByte(flags, 12, k);
      OrBit(phys % 4096, flags % 4096, 12, k);
    }
  }

  /** PAGE_WRITABLE. */
  predicate Writable(e: word) {
    e / 2 % 2 == 1
  }

  lemma WritableBits(e: word, phys: word, flags: word)
    requires IsEntry(e, phys, flags)
    ensures Present(e) <==> Present(phys) || Present(flags)
    ensures Writable(e) <==> Writable(phys) || Writable(flags)
  {
    assert BitSet(e, 0) <==> BitSet(phys, 0) || BitSet(flags, 0);
    assert BitSet(e, 1) <==> BitSet(phys, 1) || BitSet(flags, 1);
    assert BitSet(e, 1) == BitSet(e / 2, 0) && BitSet(phys, 1) == BitSet(phys / 2, 0);
    assert BitSet(flags, 1) == BitSet(flags / 2, 0);
  }

  // ---- the processor's walk ----

  predicate IsRam(ram: Ram) {
    |ram| == FRAMES && forall f :: 0 <= f < FRAMES ==> |ram[f]| == 1024
  }

  /** The walk for v finds a present table and a present page. */
  predicate Reaches(ram: Ram, cr3: nat, v: word) {
    && IsRam(ram) && cr3 < FRAMES
    && var pde := ram[cr3][v / 0x40_0000];
       && Present(pde) && FrameOf(pde) < FRAMES
       && var pte := ram[FrameOf(pde)][v / 4096 % 1024];
          Present(pte) && FrameOf(pte) < FRAMES
  }

  /** The walk for v finds a table and a page that may be written, in RAM or in a device. */
  predicate MayWrite(ram: Ram, cr3: nat, v: word) {
    && IsRam(ram) && cr3 < FRAMES
    && var pde := ram[cr3][v / 0x40_0000];
       && Present(pde) && Writable(pde) && FrameOf(pde) < FRAMES
       && var pte := ram[FrameOf(pde)][v / 4096 % 1024];
          Present(pte) && Writable(pte)
  }

  function Target(ram: Ram, cr3: nat, v: word): (f: nat)
    requires Reaches(ram, cr3, v)
    ensures f < FRAMES
  {
    FrameOf(ram[FrameOf(ram[cr3][v / 0x40_0000])][v / 4096 % 1024])
  }

  function Peek(ram: Ram, cr3: nat, v: word): word
    requires Reaches(ram, cr3, v)
  {
    ram[Target(ram, cr3, v)][v % 4096 / 4]
  }

  function Poke(ram: Ram, cr3: nat, v: word, x: word): Ram
    requires Reaches(ram, cr3, v)
  {
    SetWord(ram, Target(ram, cr3, v), v % 4096 / 4, x)
  }

  function SetWord(ram: Ram, f: nat, j: nat, x: word): (r: Ram)
    requires IsRam(ram) && f < FRAMES && j < 1024
    ensures IsRam(r)
  {
    var row: seq<word> := ram[f][j := x];
    ram[f := row]
  }

  // ---- the self-map ----

  /** The directory's last slot names the directory itself. */
  predicate SelfMapped(ram: Ram, cr3: nat) {
    IsRam(ram) && 0 < cr3 < FRAMES && Present(ram[cr3][1023]) && FrameOf(ram[cr3][1023]) == cr3
  }

  function DirAddress(i: nat): word
    requires i < 1024
  {
    PAGE_DIR_POS + 4 * i
  }

  function TableAddress(i: nat): word
    requires i < 1024
  {
    PAGE_TABLES_POS + 0x1000 * i
  }

  function EntryAddress(i: nat, j: nat): word
    requires i < 1024 && j < 1024
  {
    TableAddress(i) + 4 * j
  }

  /** Through the self-map, page_dir[i] is word i of the directory's own frame. */
  lemma DirThroughSelfMap(ram: Ram, cr3: nat, i: nat)
    requires SelfMapped(ram, cr3) && i < 1024
    ensures Reaches(ram, cr3, DirAddress(i)) && Peek(ram, cr3, DirAddress(i)) == ram[cr3][i]
    ensures forall x :: Poke(ram, cr3, DirAddress(i), x) == SetWord(ram, cr3, i, x)
  {
    var v := DirAddress(i);
    assert v / 0x40_0000 == 1023;
    assert v / 4096 == 0xFFFFF;
    assert v % 4096 == 4 * i;
  }

  /** Through the self-map, page_table[j] of slot i is word j of the frame directory entry i names. */
  lemma TableThroughSelfMap(ram: Ram, cr3: nat, i: nat, j: nat)
    requires SelfMapped(ram, cr3) && i < 1024 && j < 1024
    requires Present(ram[cr3][i]) && FrameOf(ram[cr3][i]) < FRAMES
    ensures Reaches(ram, cr3, EntryAddress(i, j))
    ensures Peek(ram, cr3, EntryAddress(i, j)) == ram[FrameOf(ram[cr3][i])][j]
    ensures forall x :: Poke(ram, cr3, EntryAddress(i, j), x) == SetWord(ram, FrameOf(ram[cr3][i]), j, x)
  {
    var v := EntryAddress(i, j);
    assert v / 0x40_0000 == 1023;
    assert v / 4096 == 1023 * 1024 + i;
    assert v % 4096 == 4 * j;
  }

  /** Directory index, table index and offset recombine to the address. */
  lemma AddressSplit(v: word)
    ensures v / 0x40_0000 < 1024 && v / 4096 % 1024 < 1024
    ensures v / 0x40_0000 * 0x40_0000 + v / 4096 % 1024 * 4096 + v % 4096 == v
    ensures v / 4096 / 1024 == v / 0x40_0000
  {
  }

  // ---- what the tables mean ----

  ghost predicate EntriesAt(row: seq<word>, entries: map<int, int>)
    requires |row| == 1024
  {
    && (forall j :: j in entries ==> 0 <= j < 1024)
    && (forall j :: 0 <= j < 1024 ==> (j in entries <==> Present(row[j])))
    && (forall j :: 0 <= j < 1024 && j in entries ==> entries[j] == FrameOf(row[j]))
  }

  ghost predicate TableAt(ram: Ram, cr3: nat, d: int, t: Table)
    requires IsRam(ram) && cr3 < FRAMES
  {
    && 0 <= d < 1023 && Present(ram[cr3][d]) && FrameOf(ram[cr3][d]) == t.frame
    && 0 < t.frame < FRAMES && t.frame != cr3 && EntriesAt(ram[t.frame], t.entries)
  }

  /** The directory in frame cr3 holds exactly these tables, besides its own slot. */
  ghost predicate Describes(ram: Ram, cr3: nat, tables: map<int, Table>) {
    && SelfMapped(ram, cr3)
    && (forall d :: d in tables ==> TableAt(ram, cr3, d, tables[d]))
    && (forall d :: 0 <= d < 1023 && Present(ram[cr3][d]) ==> d in tables)
    && (forall d, e :: d in tables && e in tables && d != e ==> tables[d].frame != tables[e].frame)
  }

  /** The processor finds the page the tables describe, if it lies in RAM, and finds no other. */
  lemma WalkIs(ram: Ram, cr3: nat, tables: map<int, Table>, v: word)
    requires Describes(ram, cr3, tables) && v < 1023 * 0x40_0000
    ensures var s, p := Space.Space({}, tables), v / 4096;
            && (Reaches(ram, cr3, v) <==> Space.Mapped(s, p) && Space.Frame(s, p) < FRAMES)
            && (Reaches(ram, cr3, v) ==> Target(ram, cr3, v) == Space.Frame(s, p))
  {
    AddressSplit(v);
    var d := v / 0x40_0000;
    assert d in tables ==> TableAt(ram, cr3, d, tables[d]);
  }

  function WithEntry(entries: map<int, int>, j: int, e: word): map<int, int> {
    if Present(e) then entries[j := FrameOf(e)] else entries - {j}
  }

  lemma SetEntryDescribes(ram: Ram, cr3: nat, tables: map<int, Table>, d: int, j: nat, e: word)
    requires Describes(ram, cr3, tables) && d in tables && j < 1024
    ensures TableAt(ram, cr3, d, tables[d])
    ensures Describes(SetWord(ram, tables[d].frame, j, e), cr3,
                       tables[d := Space.Table(tables[d].frame, WithEntry(tables[d].entries, j, e))])
  {
    assert TableAt(ram, cr3, d, tables[d]);
    var t := Space.Table(tables[d].frame, WithEntry(tables[d].entries, j, e));
    var r := SetWord(ram, t.frame, j, e);
    forall c | c in tables && c != d ensures TableAt(r, cr3, c, tables[c]) {
      assert TableAt(ram, cr3, c, tables[c]);
    }
    assert TableAt(r, cr3, d, t);
  }

  lemma AddTableDescribes(ram: Ram, cr3: nat, tables: map<int, Table>, d: int, f: nat, e: word, r: Ram)
    requires Describes(ram, cr3, tables) && 0 <= d < 1023 && d !in tables
    requires Present(e) && FrameOf(e) == f && 0 < f < FRAMES && f != cr3
    requires forall c :: c in tables ==> tables[c].frame != f
    requires IsRam(r) && (forall j :: 0 <= j < 1024 ==> r[f][j] == 0) && r[cr3] == ram[cr3][d := e]
    requires forall g :: 0 <= g < FRAMES && g != f && g != cr3 ==> r[g] == ram[g]
    ensures Describes(r, cr3, tables[d := Space.Table(f, map[])])
  {
    forall c | c in tables ensures TableAt(r, cr3, c, tables[c]) {
      assert TableAt(ram, cr3, c, tables[c]);
    }
    assert TableAt(r, cr3, d, Space.Table(f, map[]));
  }

  lemma TablePresent(ram: Ram, cr3: nat, tables: map<int, Table>, i: nat)
    requires Describes(ram, cr3, tables) && i < 1023
    ensures SelfMapped(ram, cr3) && (Present(ram[cr3][i]) <==> i in tables)
  {
    if i in tables {
      assert TableAt(ram, cr3, i, tables[i]);
    }
  }

  lemma TableFrame(ram: Ram, cr3: nat, tables: map<int, Table>, i: nat)
    requires Describes(ram, cr3, tables) && i in tables
    ensures i < 1023 && SelfMapped(ram, cr3) && FrameOf(ram[cr3][i]) == tables[i].frame < FRAMES
  {
    assert TableAt(ram, cr3, i, tables[i]);
  }

  lemma DropTableDescribes(ram: Ram, cr3: nat, tables: map<int, Table>, d: int)
    requires Describes(ram, cr3, tables) && 0 <= d < 1023
    ensures Describes(SetWord(ram, cr3, d, 0), cr3, tables - {d})
  {
    var r := SetWord(ram, cr3, d, 0);
    forall c | c in tables && c != d ensures TableAt(r, cr3, c, tables[c]) {
      assert TableAt(ram, cr3, c, tables[c]);
    }
  }

  /** The directory entry of a table and its present entries allow writing. */
  ghost predicate TableWritable(ram: Ram, cr3: nat, d: int, t: Table)
    requires IsRam(ram) && cr3 < FRAMES
  {
    && 0 <= d < 1023 && 0 < t.frame < FRAMES && Writable(ram[cr3][d])
    && forall j :: 0 <= j < 1024 && j in t.entries ==> Writable(ram[t.frame][j])
  }

  /** Every page that is mapped can be written to. */
  ghost predicate Writables(ram: Ram, cr3: nat, tables: map<int, Table>) {
    IsRam(ram) && cr3 < FRAMES && forall d :: d in tables ==> TableWritable(ram, cr3, d, tables[d])
  }

  lemma SetEntryWritable(ram: Ram, cr3: nat, tables: map<int, Table>, d: int, j: nat, e: word)
    requires Describes(ram, cr3, tables) && Writables(ram, cr3, tables) && d in tables && j < 1024
    requires Present(e) ==> Writable(e)
    ensures TableAt(ram, cr3, d, tables[d])
    ensures Writables(SetWord(ram, tables[d].frame, j, e), cr3,
                      tables[d := Space.Table(tables[d].frame, WithEntry(tables[d].entries, j, e))])
  {
    assert TableAt(ram, cr3, d, tables[d]) && TableWritable(ram, cr3, d, tables[d]);
    var t := Space.Table(tables[d].frame, WithEntry(tables[d].entries, j, e));
    var r := SetWord(ram, t.frame, j, e);
    forall c | c in tables && c != d ensures TableWritable(r, cr3, c, tables[c]) {
      assert TableAt(ram, cr3, c, tables[c]) && TableWritable(ram, cr3, c, tables[c]);
    }
    assert TableWritable(r, cr3, d, t);
  }

  lemma AddTableWritable(ram: Ram, cr3: nat, tables: map<int, Table>, d: int, f: nat, e: word, r: Ram)
    requires Describes(ram, cr3, tables) && Writables(ram, cr3, tables) && 0 <= d < 1023 && d !in tables
    requires 0 < f < FRAMES && Writable(e) && forall c :: c in tables ==> tables[c].frame != f
    requires IsRam(r) && r[cr3] == ram[cr3][d := e]
    requires forall g :: 0 <= g < FRAMES && g != f && g != cr3 ==> r[g] == ram[g]
    ensures Writables(r, cr3, tables[d := Space.Table(f, map[])])
  {
    forall c | c in tables ensures TableWritable(r, cr3, c, tables[c]) {
      assert TableAt(ram, cr3, c, tables[c]) && TableWritable(ram, cr3, c, tables[c]);
    }
  }

  lemma DropTableWritable(ram: Ram, cr3: nat, tables: map<int, Table>, d: int)
    requires Describes(ram, cr3, tables) && 0 <= d < 1023 && Writables(ram, cr3, tables - {d})
    ensures Writables(SetWord(ram, cr3, d, 0), cr3, tables - {d})
  {
    var r := SetWord(ram, cr3, d, 0);
    forall c | c in tables && c != d ensures TableWritable(r, cr3, c, tables[c]) {
      assert c in tables - {d} && TableAt(ram, cr3, c, tables[c]) && TableWritable(ram, cr3, c, (tables - {d})[c]);
    }
  }

  lemma LessWritable(ram: Ram, cr3: nat, tables: map<int, Table>, d: int)
    ensures Writables(ram, cr3, tables) ==> Writables(ram, cr3, tables - {d})
  {
    if Writables(ram, cr3, tables) {
      forall c | c in tables - {d} ensures TableWritable(ram, cr3, c, (tables - {d})[c]) {
        assert c in tables && (tables - {d})[c] == tables[c];
      }
    }
  }

  lemma EntriesInRange(ram: Ram, cr3: nat, tables: map<int, Table>, i: int)
    requires Describes(ram, cr3, tables) && i in tables
    ensures 0 <= i < 1023 && forall j :: j in tables[i].entries ==> 0 <= j < 1024
  {
    assert TableAt(ram, cr3, i, tables[i]);
  }

  // ---- what one call does to the tables and the counts ----

  function WithTable(s: Space.Space, i: int, frame: int): Space.Space {
    if i in s.tables then s else Space.Space(s.free - {frame}, s.tables[i := Space.Table(frame, map[])])
  }

  /** map_page's effect for any entry value, also one without the present bit. */
  ghost function AfterMap(s: Space.Space, i: int, j: int, e: word): (r: Space.Space)
    ensures i in r.tables
  {
    var u := WithTable(s, i, Space.Min(s.free));
    u.(tables := u.tables[i := Space.Table(u.tables[i].frame, WithEntry(u.tables[i].entries, j, e))])
  }

  lemma PresentEntryMaps(s: Space.Space, v: word, e: word)
    requires Present(e)
    ensures AfterMap(s, v / 0x40_0000, v / 4096 % 1024, e) == Space.MapPage(s, v / 4096, FrameOf(e))
  {
    AddressSplit(v);
    var i, j := v / 0x40_0000, v / 4096 % 1024;
    if i !in s.tables {
      assert map[][j := FrameOf(e)] == map[j := FrameOf(e)];
    }
  }

  ghost predicate CountsMatch(mounts: seq<int>, tables: map<int, Table>) {
    |mounts| == 2048 && forall d :: 0 <= d < 1023 ==> CountMatches(mounts[d], tables, d)
  }

  ghost predicate CountMatches(m: int, tables: map<int, Table>, d: int) {
    if d in tables then m == |tables[d].entries| && m > 0 else m == 0
  }

  /** A count never comes near the top of its uint16_t. */
  lemma SmallCount(ram: Ram, cr3: nat, tables: map<int, Table>, mounts: seq<int>, i: int)
    requires Describes(ram, cr3, tables) && 0 <= i < 1023
    ensures CountsMatch(mounts, tables) ==> mounts[i] <= 1024
  {
    hide Describes;
    if CountsMatch(mounts, tables) && i in tables {
      EntriesInRange(ram, cr3, tables, i);
      FewEntries(tables[i].entries);
      assert CountMatches(mounts[i], tables, i);
    }
  }

  lemma FewEntries(entries: map<int, int>)
    requires forall j :: j in entries ==> 0 <= j < 1024
    ensures |entries| <= 1024
  {
    assert forall j :: j in entries.Keys ==> j in Range(0, 1024);
    SubsetSize(entries.Keys, Range(0, 1024));
    assert |entries| == |entries.Keys|;
  }

  /** The count stays right exactly when a page that was not mapped becomes mapped. */
  lemma MapCounts(mounts: seq<int>, s: Space.Space, i: int, j: int, e: word)
    requires CountsMatch(mounts, s.tables) && 0 <= i < 1023 && mounts[i] <= 1024
    ensures CountsMatch(mounts[i := (mounts[i] + 1) % 0x10000], AfterMap(s, i, j, e).tables) <==>
            Present(e) && !(i in s.tables && j in s.tables[i].entries)
  {
    hide AfterMap, CountMatches;
    MapOtherCounts(mounts, s, i, j, e);
    assert CountMatches(mounts[i], s.tables, i);
    MapThisCount(mounts[i], s, i, j, e);
    var m', tables := mounts[i := (mounts[i] + 1) % 0x10000], AfterMap(s, i, j, e).tables;
    if CountMatches(m'[i], tables, i) {
      assert forall d :: 0 <= d < 1023 ==> CountMatches(m'[d], tables, d);
    } else {
      assert !CountsMatch(m', tables);
    }
  }

  lemma MapOtherCounts(mounts: seq<int>, s: Space.Space, i: int, j: int, e: word)
    requires CountsMatch(mounts, s.tables)
    ensures forall d :: 0 <= d < 1023 && d != i ==> CountMatches(mounts[d], AfterMap(s, i, j, e).tables, d)
  {
    forall d | 0 <= d < 1023 && d != i ensures CountMatches(mounts[d], AfterMap(s, i, j, e).tables, d) {
      assert CountMatches(mounts[d], s.tables, d);
    }
  }

  lemma MapThisCount(m: int, s: Space.Space, i: int, j: int, e: word)
    requires CountMatches(m, s.tables, i) && m <= 1024
    ensures CountMatches((m + 1) % 0x10000, AfterMap(s, i, j, e).tables, i) <==>
            Present(e) && !(i in s.tables && j in s.tables[i].entries)
  {
    hide WithEntry;
    var before := if i in s.tables then s.tables[i].entries else map[];
    assert AfterMap(s, i, j, e).tables[i].entries == WithEntry(before, j, e);
    SizeWithEntry(before, j, e);
  }

  lemma SizeWithEntry(entries: map<int, int>, j: int, e: word)
    ensures |WithEntry(entries, j, e)| == |entries| + (if Present(e) && j !in entries then 1 else 0)
                                                    - (if !Present(e) && j in entries then 1 else 0)
  {
    if Present(e) {
      assert WithEntry(entries, j, e).Keys == entries.Keys + {j};
    } else {
      assert WithEntry(entries, j, e).Keys == entries.Keys - {j};
    }
  }

  /** unmap_page's effect, given the count it leaves: the table goes with all its pages when that is 0. */
  ghost function AfterUnmap(s: Space.Space, i: int, j: int, count: int): Space.Space
    requires i in s.tables
  {
    var t := s.tables[i];
    if count == 0 then Space.Space(s.free + {t.frame}, s.tables - {i})
    else s.(tables := s.tables[i := Space.Table(t.frame, t.entries - {j})])
  }

  ghost predicate OnlyUnmapped(s: Space.Space, u: Space.Space, p: int) {
    forall q :: Space.Mapped(u, q) <==> q != p && Space.Mapped(s, q)
  }

  /** Unmapping a mapped page of a table with a right count does just that and leaves a right count. */
  lemma UnmapCounts(mounts: seq<int>, s: Space.Space, v: word)
    requires CountsMatch(mounts, s.tables) && v / 0x40_0000 in s.tables && v / 0x40_0000 < 1023
    requires mounts[v / 0x40_0000] <= 1024 && Space.Mapped(s, v / 4096)
    ensures var i, j := v / 0x40_0000, v / 4096 % 1024;
            var count := (mounts[i] - 1) % 0x10000;
            && CountsMatch(mounts[i := count], AfterUnmap(s, i, j, count).tables)
            && AfterUnmap(s, i, j, count) == Space.UnmapPage(s, v / 4096)
  {
    AddressSplit(v);
    var i, j := v / 0x40_0000, v / 4096 % 1024;
    UnmapEntry(mounts, s, i, j, v / 4096);
  }

  lemma UnmapEntry(mounts: seq<int>, s: Space.Space, i: nat, j: nat, p: nat)
    requires CountsMatch(mounts, s.tables) && i in s.tables && i < 1023 && mounts[i] <= 1024
    requires p / 1024 == i && p % 1024 == j && Space.Mapped(s, p)
    ensures var count := (mounts[i] - 1) % 0x10000;
            && CountsMatch(mounts[i := count], AfterUnmap(s, i, j, count).tables)
            && AfterUnmap(s, i, j, count) == Space.UnmapPage(s, p)
  {
    var t := s.tables[i];
    assert CountMatches(mounts[i], s.tables, i);
    assert (t.entries - {j}).Keys == t.entries.Keys - {j};
    assert |t.entries - {j}| == |t.entries| - 1;
    assert t.entries - {j} == map[] <==> |t.entries - {j}| == 0;
    var count := (mounts[i] - 1) % 0x10000;
    assert count == mounts[i] - 1;
    var m', u := mounts[i := count], AfterUnmap(s, i, j, count);
    forall d | 0 <= d < 1023 ensures CountMatches(m'[d], u.tables, d) {
      assert CountMatches(mounts[d], s.tables, d);
    }
  }

  /** Unmapping a page that is not mapped breaks the count, or takes the table's last page with it. */
  lemma UnmapUnmapped(mounts: seq<int>, s: Space.Space, v: word)
    requires CountsMatch(mounts, s.tables) && v / 0x40_0000 in s.tables && v / 0x40_0000 < 1023
    requires mounts[v / 0x40_0000] <= 1024 && !Space.Mapped(s, v / 4096)
    requires forall j :: j in s.tables[v / 0x40_0000].entries ==> 0 <= j < 1024
    ensures var i, j := v / 0x40_0000, v / 4096 % 1024;
            var count := (mounts[i] - 1) % 0x10000;
            CountsMatch(mounts[i := count], AfterUnmap(s, i, j, count).tables) ==>
            !OnlyUnmapped(s, AfterUnmap(s, i, j, count), v / 4096)
  {
    AddressSplit(v);
    var i, j := v / 0x40_0000, v / 4096 % 1024;
    var t := s.tables[i];
    assert CountMatches(mounts[i], s.tables, i);
    var count := (mounts[i] - 1) % 0x10000;
    var m', u := mounts[i := count], AfterUnmap(s, i, j, count);
    if count == 0 {
      var k := Pick(t.entries.Keys);
      var q := i * 1024 + k;
      assert q / 1024 == i && q % 1024 == k;
      assert Space.Mapped(s, q) && !Space.Mapped(u, q);
    } else {
      assert t.entries - {j} == t.entries;
      assert !CountMatches(m'[i], u.tables, i);
    }
  }

  /** The present entries among the first n of a table. */
  function CountPresent(row: seq<word>, n: nat): (c: nat)
    requires n <= |row|
    ensures c <= n
  {
    if n == 0 then 0 else CountPresent(row, n - 1) + if Present(row[n - 1]) then 1 else 0
  }

  lemma {:induction false} CountPresentIs(row: seq<word>, n: nat, s: set<int>)
    requires n <= |row| && forall j :: j in s <==> 0 <= j < n && Present(row[j])
    ensures CountPresent(row, n) == |s|
  {
    if n == 0 {
      if s != {} {
        var j := Pick(s);
      }
    } else {
      CountPresentIs(row, n - 1, s - {n - 1});
    }
  }

  // ---- the memory manager's entry points ----

  class Mmu {
    const pmm: FrameAllocator
    const mountTable: array<int>
    const cr3: nat
    var ram: Ram
    ghost var tables: map<int, Table>  // what the directory describes; Valid ties it to ram

    constructor (pmm: FrameAllocator, ram: Ram, cr3: nat, ghost tables: map<int, Table>)
      ensures this.pmm == pmm && this.ram == ram && this.cr3 == cr3 && this.tables == tables
      ensures fresh(mountTable) && mountTable.Length == 2048
      ensures forall i :: 0 <= i < 2048 ==> mountTable[i] == 0
    {
      this.pmm, this.ram, this.cr3, this.tables := pmm, ram, cr3, tables;
      mountTable := new int[2048](_ => 0);
    }

    ghost function TheSpace(): Space.Space
      reads this, pmm
    {
      Space.Space(pmm.free, tables)
    }

    ghost predicate Valid()
      reads this, pmm, pmm.bitmap
    {
      && pmm.Valid() && mountTable != pmm.bitmap && mountTable.Length == 2048
      && Describes(ram, cr3, tables) && cr3 !in pmm.free
      && forall d :: d in tables ==> tables[d].frame !in pmm.free
    }

    /** mount_table counts the present entries of every table, and a table is present only if it has some. */
    ghost predicate Counted()
      reads this, mountTable
    {
      CountsMatch(mountTable[..], tables)
    }

    /** Every page that is mapped can be written to. */
    ghost predicate AllWritable()
      reads this
    {
      Writables(ram, cr3, tables)
    }

    /** What all of the memory manager keeps: the counts are right and every mapped page can be written to. */
    ghost predicate Ready()
      reads this, mountTable, pmm, pmm.bitmap
    {
      Valid() && Counted() && AllWritable()
    }

    lemma MappedMayWrite(v: word)
      requires Describes(ram, cr3, tables) && AllWritable()
      requires v < 1023 * 0x40_0000 && Space.Mapped(TheSpace(), v / 4096)
      ensures MayWrite(ram, cr3, v)
    {
      AddressSplit(v);
      var d := v / 0x40_0000;
      assert TableAt(ram, cr3, d, tables[d]) && TableWritable(ram, cr3, d, tables[d]);
    }

    lemma CountedConsistent()
      requires Ready()
      ensures Space.Consistent(TheSpace())
    {
      forall d | d in tables ensures Space.TableOk(TheSpace(), d) {
        assert TableAt(ram, cr3, d, tables[d]);
        assert CountMatches(mountTable[d], tables, d);
        assert |tables[d].entries| > 0;
      }
    }

    /** alloc_page and free_page as the tables see them: no table's frame is taken or given. */
    method AllocFrame() returns (p: nat)
      requires Valid() && pmm.free != {}
      modifies pmm, pmm.bitmap
      ensures Valid() && pmm.slack == old(pmm.slack)
      ensures p < WORD && p % 4096 == 0 && p / 4096 == Space.Min(old(pmm.free))
      ensures pmm.free == old(pmm.free) - {Space.Min(old(pmm.free))} && Counted() == old(Counted())
    {
      hide Describes, FrameAllocator.BitmapOk;
      p := pmm.AllocPage(0);
    }

    method FreeFrame(p: nat)
      requires Valid() && 0 < p / 4096 < FRAMES && p / 4096 !in pmm.free && p / 4096 != cr3
      requires forall d :: d in tables ==> tables[d].frame != p / 4096
      modifies pmm, pmm.bitmap
      ensures Valid() && pmm.slack == old(pmm.slack) && pmm.free == old(pmm.free) + {p / 4096}
      ensures Counted() == old(Counted())
    {
      hide Describes, FrameAllocator.BitmapOk;
      pmm.FreePage(p);
    }

    function PageDir(i: nat): word
      requires SelfMapped(ram, cr3) && i < 1024
      reads this
      ensures PageDir(i) == ram[cr3][i]
    {
      DirThroughSelfMap(ram, cr3, i);
      Peek(ram, cr3, DirAddress(i))
    }

    function PageTable(i: nat, j: nat): word
      requires SelfMapped(ram, cr3) && i < 1024 && j < 1024
      requires Present(ram[cr3][i]) && FrameOf(ram[cr3][i]) < FRAMES
      reads this
      ensures PageTable(i, j) == ram[FrameOf(ram[cr3][i])][j]
    {
      TableThroughSelfMap(ram, cr3, i, j);
      Peek(ram, cr3, EntryAddress(i, j))
    }

    method Store(v: word, x: word)
      requires Reaches(ram, cr3, v)
      modifies `ram
      ensures ram == Poke(old(ram), cr3, v, x)
    {
      ram := Poke(ram, cr3, v, x);
    }

    method SetPageDir(i: nat, x: word)
      requires SelfMapped(ram, cr3) && i < 1024
      modifies `ram
      ensures ram == SetWord(old(ram), cr3, i, x)
    {
      DirThroughSelfMap(ram, cr3, i);
      Store(DirAddress(i), x);
    }

    method SetPageTable(i: nat, j: nat, x: word)
      requires SelfMapped(ram, cr3) && i < 1024 && j < 1024
      requires Present(ram[cr3][i]) && FrameOf(ram[cr3][i]) < FRAMES
      modifies `ram
      ensures ram == SetWord(old(ram), FrameOf(old(ram)[cr3][i]), j, x)
    {
      TableThroughSelfMap(ram, cr3, i, j);
      Store(EntryAddress(i, j), x);
    }

    /** memset(page_table, 0, 4096): word by word, through the self-map. */
    method ClearTable(i: nat)
      requires SelfMapped(ram, cr3) && i < 1023
      requires Present(ram[cr3][i]) && FrameOf(ram[cr3][i]) < FRAMES && FrameOf(ram[cr3][i]) != cr3
      modifies `ram
      ensures IsRam(ram) && forall j :: 0 <= j < 1024 ==> ram[FrameOf(old(ram)[cr3][i])][j] == 0
      ensures forall g :: 0 <= g < FRAMES && g != FrameOf(old(ram)[cr3][i]) ==> ram[g] == old(ram)[g]
    {
      ghost var f := FrameOf(ram[cr3][i]);
      for j := 0 to 1024
        invariant IsRam(ram) && forall k :: 0 <= k < j ==> ram[f][k] == 0
        invariant forall g :: 0 <= g < FRAMES && g != f ==> ram[g] == old(ram)[g]
      {
        SetPageTable(i, j, 0);
      }
    }

    function GetPhysAdr(v: word): (r: nat)
      requires Describes(ram, cr3, tables)
      reads this
      ensures v < 1023 * 0x40_0000 ==>
                r == if Space.Mapped(Space.Space({}, tables), v / 4096)
                     then Space.Frame(Space.Space({}, tables), v / 4096) * 4096 + v % 4096 else 0
      ensures 1023 * 0x40_0000 <= v && v / 4096 % 1024 < 1023 ==>
                r == if v / 4096 % 1024 in tables then tables[v / 4096 % 1024].frame * 4096 + v % 4096 else 0
    {
      var i, j := v / 0x40_0000, v / 4096 % 1024;
      AddressSplit(v);
      assert i in tables ==> TableAt(ram, cr3, i, tables[i]);
      assert j in tables ==> TableAt(ram, cr3, j, tables[j]);
      if !Present(PageDir(i)) then 0
      else
        var e := PageTable(i, j);
        if !Present(e) then 0 else e / 4096 * 4096 + v % 4096
    }

    /** vmm.c:71-72: the new page becomes the slot's table, with no entry. */
    method HangTable(i: nat, newPage: nat)
      requires Describes(ram, cr3, tables) && i < 1023 && i !in tables
      requires newPage < WORD && newPage % 4096 == 0 && 0 < newPage / 4096 < FRAMES && newPage / 4096 != cr3
      requires forall d :: d in tables ==> tables[d].frame != newPage / 4096
      modifies `ram, `tables
      ensures Describes(ram, cr3, tables) && tables == old(tables)[i := Space.Table(newPage / 4096, map[])]
      ensures IsEntry(ram[cr3][i], newPage, 3) && (old(AllWritable()) ==> AllWritable())
    {
      ghost var ram0, e := ram, Entry(newPage, 3);
      EntryBits(newPage, 3);
      SetPageDir(i, Entry(newPage, 3));
      ClearTable(i);
      assert ram[cr3] == ram0[cr3][i := e];
      AddTableDescribes(ram0, cr3, tables, i, newPage / 4096, e, ram);
      if Writables(ram0, cr3, tables) {
        WritableBits(e, newPage, 3);
        AddTableWritable(ram0, cr3, tables, i, newPage / 4096, e, ram);
      }
      tables := tables[i := Space.Table(newPage / 4096, map[])];
    }

    /** The first half of map_page: give the slot a cleared table if it has none. */
    method EnsureTable(i: nat)
      requires Valid() && i < 1023
      requires i !in tables ==> pmm.free != {}
      modifies this, pmm, pmm.bitmap
      ensures Valid() && i in tables && pmm.slack == old(pmm.slack)
      ensures old(i in tables) ==> tables == old(tables) && pmm.free == old(pmm.free)
      ensures old(i !in tables) ==> tables == old(tables)[i := Space.Table(Space.Min(old(pmm.free)), map[])]
      ensures old(i !in tables) ==> pmm.free == old(pmm.free) - {Space.Min(old(pmm.free))}
      ensures if old(i in tables) then ram == old(ram) else IsEntry(ram[cr3][i], 4096 * tables[i].frame, 3)
      ensures old(AllWritable()) ==> AllWritable()
    {
      hide FrameAllocator.Valid, Space.Min;
      pmm.FrameBounds();
      TablePresent(ram, cr3, tables, i);
      if !Present(PageDir(i)) {
        var newPage := AllocFrame();
        hide Describes;
        HangTable(i, newPage);
      }
    }

    /** page_table[j] = e, for a slot that has a table. */
    method WriteEntry(i: nat, j: nat, e: word)
      requires Describes(ram, cr3, tables) && i in tables && j < 1024
      modifies `ram, `tables
      ensures Describes(ram, cr3, tables)
      ensures tables == old(tables)[i := Space.Table(old(tables)[i].frame, WithEntry(old(tables)[i].entries, j, e))]
      ensures 0 < tables[i].frame < FRAMES && tables[i].frame != cr3 && IsRam(old(ram))
      ensures ram == SetWord(old(ram), tables[i].frame, j, e)
      ensures old(AllWritable()) && (Present(e) ==> Writable(e)) ==> AllWritable()
    {
      ghost var t := tables[i];
      SetEntryDescribes(ram, cr3, tables, i, j, e);
      if AllWritable() && (Present(e) ==> Writable(e)) {
        SetEntryWritable(ram, cr3, tables, i, j, e);
      }
      SetPageTable(i, j, e);
      tables := tables[i := Space.Table(t.frame, WithEntry(t.entries, j, e))];
    }

    /** Entry j of slot i in RAM is the word for these operands. */
    ghost predicate EntryIs(i: nat, j: nat, phys: word, flags: word)
      reads this
    {
      && IsRam(ram) && cr3 < FRAMES && i < 1024 && j < 1024 && FrameOf(ram[cr3][i]) < FRAMES
      && IsEntry(ram[FrameOf(ram[cr3][i])][j], phys, flags)
    }

    /** Every other word of RAM is as it was in ram0. */
    ghost predicate OnlyEntry(ram0: Ram, i: nat, j: nat)
      reads this
    {
      && IsRam(ram0) && IsRam(ram) && cr3 < FRAMES && i < 1024
      && forall f, k :: 0 <= f < FRAMES && 0 <= k < 1024 && !(f == FrameOf(ram0[cr3][i]) && k == j) ==>
           ram[f][k] == ram0[f][k]
    }

    /** The entry in RAM is the word of IsEntry; a new table can be written to. */
    method MapPage(physAdr: word, v: word, flags: word)
      requires Valid() && v < 1023 * 0x40_0000
      requires v / 0x40_0000 !in tables ==> pmm.free != {}
      modifies this, mountTable, pmm, pmm.bitmap
      ensures Valid() && pmm.slack == old(pmm.slack)
      ensures EntryIs(v / 0x40_0000, v / 4096 % 1024, physAdr, flags)
      ensures if old(v / 0x40_0000 in tables) then OnlyEntry(old(ram), v / 0x40_0000, v / 4096 % 1024)
              else IsEntry(ram[cr3][v / 0x40_0000], 4096 * FrameOf(ram[cr3][v / 0x40_0000]), 3)
      ensures old(AllWritable()) && (Writable(physAdr) || Writable(flags)) ==> AllWritable()
      ensures TheSpace() == AfterMap(old(TheSpace()), v / 0x40_0000, v / 4096 % 1024, Entry(physAdr, flags))
      ensures Present(Entry(physAdr, flags)) ==>
                TheSpace() == Space.MapPage(old(TheSpace()), v / 4096, physAdr / 4096)
      ensures old(Counted()) ==>
                (Counted() <==> Present(Entry(physAdr, flags)) && !old(Space.Mapped(TheSpace(), v / 4096)))
    {
      hide Entry, Describes, TableAt, CountsMatch, BitSet, FrameAllocator.BitmapOk;
      var i, j := v / 0x40_0000, v / 4096 % 1024;
      ghost var s, mounts, e := TheSpace(), mountTable[..], Entry(physAdr, flags);
      SmallCount(ram, cr3, tables, mounts, i);
      EntryBits(physAdr, flags);
      WritableBits(e, physAdr, flags);
      EnsureTable(i);
      WriteEntry(i, j, Entry(physAdr, flags));
      TableFrame(ram, cr3, tables, i);
      mountTable[i] := (mountTable[i] + 1) % 0x10000;
      assert TheSpace() == AfterMap(s, i, j, e);
      assert mountTable[..] == mounts[i := (mounts[i] + 1) % 0x10000];
      if Present(e) {
        PresentEntryMaps(s, v, e);
      }
      if CountsMatch(mounts, s.tables) {
        MapCounts(mounts, s, i, j, e);
        AddressSplit(v);
      }
    }

    /** map_page(alloc_page(0), page, PAGE_PRESENT | PAGE_WRITABLE). */
    method BackPage(page: word)
      requires Ready() && page % 4096 == 0 && page < 1023 * 0x40_0000
      requires !Space.Mapped(TheSpace(), page / 4096)
      requires |pmm.free| >= if page / 4096 / 1024 in tables then 1 else 2
      modifies this, mountTable, pmm, pmm.bitmap
      ensures Ready() && pmm.slack == old(pmm.slack)
      ensures TheSpace() == Space.AllocMap(old(TheSpace()), page / 4096)
    {
      hide Mmu.Valid, Mmu.Counted, Mmu.AllWritable, Space.MapPage, Space.Min, AfterMap, Entry, IsEntry;
      var physPage := AllocFrame();
      assert |pmm.free| == |old(pmm.free)| - 1;
      MapPage(physPage, page, 3);
    }

    method UnmapPage(v: word)
      requires Valid() && v < 1023 * 0x40_0000 && v / 0x40_0000 in tables
      modifies this, mountTable, pmm, pmm.bitmap
      ensures Valid() && pmm.slack == old(pmm.slack)
      ensures TheSpace() == AfterUnmap(old(TheSpace()), v / 0x40_0000, v / 4096 % 1024,
                                       (old(mountTable[v / 0x40_0000]) - 1) % 0x10000)
      ensures old(Counted()) && old(Space.Mapped(TheSpace(), v / 4096)) ==>
                Counted() && TheSpace() == Space.UnmapPage(old(TheSpace()), v / 4096)
      ensures old(AllWritable()) ==> AllWritable()
      ensures old(Counted()) && !old(Space.Mapped(TheSpace(), v / 4096)) ==>
                !(Counted() && OnlyUnmapped(old(TheSpace()), TheSpace(), v / 4096))
    {
      hide Describes, CountsMatch, BitSet, FrameAllocator.BitmapOk;
      var i, j := v / 0x40_0000, v / 4096 % 1024;
      ghost var s, mounts := TheSpace(), mountTable[..];
      SmallCount(ram, cr3, tables, mounts, i);
      EntriesInRange(ram, cr3, tables, i);
      WriteEntry(i, j, 0);
      mountTable[i] := (mountTable[i] - 1) % 0x10000;
      LessWritable(ram, cr3, tables, i);
      if mountTable[i] == 0 {
        FreeTable(i);
      }
      assert TheSpace() == AfterUnmap(s, i, j, (mounts[i] - 1) % 0x10000);
      assert mountTable[..] == mounts[i := (mounts[i] - 1) % 0x10000];
      if CountsMatch(mounts, s.tables) {
        if Space.Mapped(s, v / 4096) {
          UnmapCounts(mounts, s, v);
        } else {
          UnmapUnmapped(mounts, s, v);
        }
      }
    }

    /** free_page(get_phys_adr(page_table)); page_dir[i] = 0. */
    method FreeTable(i: nat)
      requires Valid() && i in tables
      modifies this, pmm, pmm.bitmap
      ensures Valid() && pmm.slack == old(pmm.slack)
      ensures TheSpace() == Space.Space(old(pmm.free) + {old(tables)[i].frame}, old(tables) - {i})
      ensures Writables(old(ram), cr3, tables) ==> AllWritable()
    {
      hide BitSet, FrameAllocator.BitmapOk;
      assert TableAt(ram, cr3, i, tables[i]);
      assert TableAddress(i) / 4096 % 1024 == i && TableAddress(i) % 4096 == 0;
      var table := GetPhysAdr(TableAddress(i));
      pmm.FreePage(table);
      DropTableDescribes(ram, cr3, tables, i);
      if Writables(ram, cr3, tables - {i}) {
        DropTableWritable(ram, cr3, tables, i);
      }
      SetPageDir(i, 0);
      tables := tables - {i};
    }

    method UnmapDir(v: word)
      requires Valid() && v < 1023 * 0x40_0000 && v / 0x40_0000 in tables
      modifies this, mountTable, pmm, pmm.bitmap
      ensures Valid() && pmm.slack == old(pmm.slack)
      ensures tables == old(tables) - {v / 0x40_0000}
      ensures pmm.free == old(pmm.free) + {old(tables)[v / 0x40_0000].frame}
      ensures mountTable[..] == old(mountTable[..])[v / 0x40_0000 := 0]
      ensures Writables(old(ram), cr3, tables) ==> AllWritable()
    {
      hide Describes, BitSet, FrameAllocator.BitmapOk;
      FreeTable(v / 0x40_0000);
      mountTable[v / 0x40_0000] := 0;
    }

    /** The loops of init_mm: count the present entries of every table, the directory's own slot included. */
    method CountMounts()
      requires Valid() && forall i :: 0 <= i < 1024 ==> mountTable[i] == 0
      modifies mountTable
      ensures forall d :: 0 <= d < 1023 ==> mountTable[d] == if d in tables then |tables[d].entries| else 0
      ensures mountTable[1023] == CountPresent(ram[cr3], 1024)
      ensures Counted() <==> forall d :: d in tables ==> tables[d].entries != map[]
    {
      hide BitSet, FrameAllocator.BitmapOk, TableAt;
      for i := 0 to 1024
        invariant forall d :: i <= d < 1024 ==> mountTable[d] == 0
        invariant forall d :: 0 <= d < i ==> mountTable[d] == PresentIn(d)
      {
        if Present(PageDir(i)) {
          CountTable(i);
        }
      }
      AllCounted();
    }

    method CountTable(i: nat)
      requires Valid() && i < 1024 && Present(ram[cr3][i]) && mountTable[i] == 0
      modifies mountTable
      ensures mountTable[i] == PresentIn(i)
      ensures forall d :: 0 <= d < 2048 && d != i ==> mountTable[d] == old(mountTable[d])
    {
      hide BitSet, FrameAllocator.BitmapOk;
      assert i < 1023 ==> TableAt(ram, cr3, i, tables[i]);
      ghost var row := ram[FrameOf(ram[cr3][i])];
      for j := 0 to 1024
        invariant mountTable[i] == CountPresent(row, j)
        invariant forall d :: 0 <= d < 2048 && d != i ==> mountTable[d] == old(mountTable[d])
      {
        if Present(PageTable(i, j)) {
          mountTable[i] := (mountTable[i] + 1) % 0x10000;
        }
      }
    }

    lemma AllCounted()
      requires Valid() && forall d :: 0 <= d < 1024 ==> mountTable[d] == PresentIn(d)
      ensures forall d :: 0 <= d < 1023 ==> mountTable[d] == if d in tables then |tables[d].entries| else 0
      ensures mountTable[1023] == CountPresent(ram[cr3], 1024)
      ensures Counted() <==> forall d :: d in tables ==> tables[d].entries != map[]
    {
      hide PresentIn, CountPresent, BitSet, FrameAllocator.BitmapOk;
      LastSlot();
      forall d | 0 <= d < 1023
        ensures mountTable[d] == if d in tables then |tables[d].entries| else 0
        ensures CountMatches(mountTable[d], tables, d) <==> (d in tables ==> tables[d].entries != map[])
      {
        PresentInIs(d);
      }
      forall d | d in tables ensures 0 <= d < 1023 {
        EntriesInRange(ram, cr3, tables, d);
      }
    }

    lemma LastSlot()
      requires Describes(ram, cr3, tables)
      ensures PresentIn(1023) == CountPresent(ram[cr3], 1024)
    {
    }

    lemma PresentInIs(d: nat)
      requires Describes(ram, cr3, tables) && d < 1023
      ensures PresentIn(d) == if d in tables then |tables[d].entries| else 0
      ensures d in tables ==> (tables[d].entries == map[] <==> |tables[d].entries| == 0)
    {
      if d in tables {
        assert TableAt(ram, cr3, d, tables[d]);
        CountPresentIs(ram[tables[d].frame], 1024, tables[d].entries.Keys);
      }
    }

    ghost function PresentIn(d: nat): nat
      requires Describes(ram, cr3, tables) && d < 1024
      reads this
    {
      if !Present(ram[cr3][d]) then 0
      else
        assert d < 1023 ==> TableAt(ram, cr3, d, tables[d]);
        CountPresent(ram[FrameOf(ram[cr3][d])], 1024)
    }
  }
}
