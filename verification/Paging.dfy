/**
 Page directories and tables (page.c) and the 32-bit page walk of the Intel 64
 and IA-32 Architectures Software Developer's Manual, volume 3A, section 4.3.
 */
module Paging {

  const ENTRIES := 1024
  const DIRECTORIES := 7
  const FOUR_KB := 0x1000
  const FOUR_MB := 0x400000
  const EIGHT_MB := 0x800000
  const VIDEO := 0xB8000
  const RW_P := 0x3       // present, writable
  const USER := 0x4
  const SIZE_4MB := 0x80
  const USER_START := 0x08000000
  const USER_END := 0x08400000
  const VID_MAP := 0x08801000

  /** Bitwise or of a base that is a multiple of 4 KB with flags below 4 KB. */
  function Or(base: nat, flags: nat): nat
    requires base % 0x1000 == 0 && flags < FOUR_KB
  {
    base + flags
  }

  /** The machine operation `|` is the sum when the low twelve bits of the base are clear. */
  lemma OrIsSum(base: bv32, flags: bv32)
    requires base & 0xFFF == 0 && flags <= 0xFFF
    ensures base | flags == base + flags
    ensures (base | flags) & 0xFFFFF000 == base && (base | flags) & 0xFFF == flags
  {
  }

  predicate Present(e: nat) { e % 2 == 1 }
  predicate UserBit(e: nat) { (e / 4) % 2 == 1 }
  predicate Large(e: nat) { (e / 128) % 2 == 1 }

  /** The bits of an entry by their place: 0 present, 2 user, 7 large. */
  lemma BitsByPlace(e: nat, high: nat, large: nat, mid: nat, user: nat, write: nat, present: nat)
    requires large < 2 && mid < 16 && user < 2 && write < 2 && present < 2
    requires e == 256 * high + 128 * large + 8 * mid + 4 * user + 2 * write + present
    ensures Present(e) <==> present == 1
    ensures UserBit(e) <==> user == 1
    ensures Large(e) <==> large == 1
  {
    Parity(e, 128 * high + 64 * large + 4 * mid + 2 * user + write, present);
    Quarter(e, 64 * high + 32 * large + 2 * mid + user, 2 * write + present);
    Parity(64 * high + 32 * large + 2 * mid + user, 32 * high + 16 * large + mid, user);
    Flag128(e, 2 * high + large, 8 * mid + 4 * user + 2 * write + present);
    Parity(2 * high + large, high, large);
  }

  lemma Quarter(e: nat, k: nat, r: nat)
    requires e == 4 * k + r && r < 4
    ensures e / 4 == k
  {
  }

  /** What a directory entry that is not large points to. */
  datatype Walk = Fault | Frame(address: nat, user: bool)

  /** The memory a walk reads: directories, the two page tables and where those tables lie. */
  datatype Tables = Tables(dirs: seq<seq<nat>>, zero: seq<nat>, one: seq<nat>, zeroAt: nat, oneAt: nat)

  ghost predicate Shape(p: Tables) {
    && |p.dirs| == DIRECTORIES && (forall d :: 0 <= d < DIRECTORIES ==> |p.dirs[d]| == ENTRIES)
    && |p.zero| == ENTRIES && |p.one| == ENTRIES
    && p.zeroAt % 0x1000 == 0 && p.oneAt % 0x1000 == 0 && p.zeroAt != p.oneAt
  }

  /** Linear address `va` under directory `d`: bits 31..22 choose the directory entry, 21..12 the table entry. */
  function Translate(p: Tables, d: int, va: nat): Walk
    requires |p.dirs| == DIRECTORIES && 0 <= d < DIRECTORIES && |p.dirs[d]| == ENTRIES
    requires |p.zero| == ENTRIES && |p.one| == ENTRIES && va < 0x1_0000_0000
  {
    var pde := p.dirs[d][va / 0x400000];
    if !Present(pde) then Fault
    else if Large(pde) then Frame(pde / 0x400000 * 0x400000 + va % 0x400000, UserBit(pde))
    else
      var table := pde / 0x1000 * 0x1000;
      var i := va % 0x400000 / 0x1000;
      if table == p.zeroAt then ThroughTable(p.zero[i], pde, va)
      else if table == p.oneAt then ThroughTable(p.one[i], pde, va)
      else Fault
  }

  function ThroughTable(pte: nat, pde: nat, va: nat): Walk {
    if !Present(pte) then Fault
    else Frame(pte / 0x1000 * 0x1000 + va % 0x1000, UserBit(pde) && UserBit(pte))
  }

  /** The walk by the parts of the address: entry `i` of the directory, and then either 4 MB at one
      stretch or entry `j` of the table it points to. */
  lemma WalkByParts(p: Tables, d: int, i: nat, j: nat, off: nat)
    requires Shape(p) && 0 <= d < DIRECTORIES && i < 1024 && j < 1024 && off < 4096
    ensures var pde, w := p.dirs[d][i], Translate(p, d, 4194304 * i + 4096 * j + off);
      && (!Present(pde) ==> w == Fault)
      && (Present(pde) && Large(pde) ==> w == Frame(pde - pde % 4194304 + 4096 * j + off, UserBit(pde)))
      && (Present(pde) && !Large(pde) && pde - pde % 4096 == p.zeroAt && Present(p.zero[j]) ==>
            w == Frame(p.zero[j] - p.zero[j] % 4096 + off, UserBit(pde) && UserBit(p.zero[j])))
      && (Present(pde) && !Large(pde) && pde - pde % 4096 == p.oneAt && Present(p.one[j]) ==>
            w == Frame(p.one[j] - p.one[j] % 4096 + off, UserBit(pde) && UserBit(p.one[j])))
  {
    var va := 4194304 * i + 4096 * j + off;
    assert va / 0x400000 == i && va % 0x400000 == 4096 * j + off;
    assert (4096 * j + off) / 0x1000 == j && va % 0x1000 == off;
  }

  // ---------------------------------------------------------------- invariant

  ghost predicate IsZeroTable(p: Tables)
    requires |p.zero| == ENTRIES
  {
    forall i :: 0 <= i < ENTRIES ==> p.zero[i] == i * 0x1000 + RW_P
  }

  /** `pte_one` maps nothing, or page k to the k-th backup screen behind video memory. */
  ghost predicate OneTableOk(p: Tables)
    requires |p.one| == ENTRIES
  {
    forall i :: 0 <= i < ENTRIES ==>
      p.one[i] == 0 || (1 <= i <= 3 && p.one[i] == VIDEO + i * 0x1000 + RW_P + USER)
  }

  /** The directory of slot `s` as `set_page` builds it; entry 34 appears with `vidmap`. */
  ghost predicate SlotDirectory(p: Tables, s: int)
    requires Shape(p) && 0 <= s < DIRECTORIES - 1
  {
    var dir := p.dirs[s + 1];
    && dir[0] == p.zeroAt + RW_P && dir[1] == FOUR_MB + SIZE_4MB + RW_P
    && dir[32] == EIGHT_MB + s * 0x400000 + SIZE_4MB + RW_P + USER
    && (dir[34] == 0 || dir[34] == p.oneAt + RW_P + USER)
    && forall j :: 2 <= j < ENTRIES && j != 32 && j != 34 ==> dir[j] == 0
  }

  ghost predicate EmptyDirectory(p: Tables, s: int)
    requires Shape(p) && 0 <= s < DIRECTORIES - 1
  {
    var dir := p.dirs[s + 1];
    forall j :: 0 <= j < ENTRIES ==> dir[j] == 0
  }

  ghost predicate BootDirectory(p: Tables)
    requires Shape(p)
  {
    && p.dirs[0][0] == p.zeroAt + RW_P && p.dirs[0][1] == FOUR_MB + SIZE_4MB + RW_P
    && forall j :: 2 <= j < ENTRIES ==> p.dirs[0][j] == 0
  }

  /** Every directory is untouched or complete. */
  ghost predicate Ready(p: Tables) {
    && Shape(p) && BootDirectory(p) && IsZeroTable(p) && OneTableOk(p)
    && forall s :: 0 <= s < DIRECTORIES - 1 ==> EmptyDirectory(p, s) || SlotDirectory(p, s)
  }

  // ------------------------------------------------------ what Ready implies

  /** The user range of slot `s` lies in its own frame, at the same offset. */
  lemma UserRange(p: Tables, s: int, va: nat)
    requires Ready(p) && 0 <= s < 6 && SlotDirectory(p, s) && USER_START <= va < USER_END
    ensures Translate(p, s + 1, va) == Frame(EIGHT_MB + s * 0x400000 + (va - USER_START), true)
  {
    assert va / 0x400000 == 32;
    LargeEntry(p.dirs[s + 1][32], 2 + s);
  }

  lemma LargeEntry(e: nat, k: nat)
    requires e == 0x400000 * k + 0x87
    ensures Present(e) && Large(e) && UserBit(e) && e / 0x400000 == k
  {
    Parity(e, 0x200000 * k + 0x43, 1);
    Flag128(e, 0x8000 * k + 1, 7);
    Parity(0x8000 * k + 1, 0x4000 * k, 1);
    Quarter(e, 0x100000 * k + 0x21, 3);
    Parity(0x100000 * k + 0x21, 0x80000 * k + 0x10, 1);
  }

  /** Two slots never share a byte of user memory. */
  lemma SlotsAreIsolated(p: Tables, a: int, b: int, va: nat, vb: nat)
    requires Ready(p) && 0 <= a < 6 && 0 <= b < 6 && a != b && SlotDirectory(p, a) && SlotDirectory(p, b)
    requires USER_START <= va < USER_END && USER_START <= vb < USER_END
    ensures Translate(p, a + 1, va).Frame? && Translate(p, b + 1, vb).Frame?
    ensures Translate(p, a + 1, va).address != Translate(p, b + 1, vb).address
  {
    UserRange(p, a, va);
    UserRange(p, b, vb);
  }

  /** The low 4 MB and the kernel page translate to themselves, supervisor only, in every built directory. */
  lemma KernelIsIdentity(p: Tables, d: int, va: nat)
    requires Ready(p) && 0 <= d < DIRECTORIES && (d == 0 || SlotDirectory(p, d - 1)) && va < EIGHT_MB
    ensures Translate(p, d, va) == Frame(va, false)
  {
    if va < FOUR_MB {
      var i := va / 0x1000;
      assert p.dirs[d][0] == p.zeroAt + RW_P;
      assert Large(p.zeroAt + RW_P) == false by { TableBaseFlags(p.zeroAt, RW_P); }
      TableBaseFlags(p.zeroAt, RW_P);
      assert p.zero[i] == i * 0x1000 + RW_P;
      TableBaseFlags(i * 0x1000, RW_P);
    } else {
      assert va / 0x400000 == 1;
    }
  }

  lemma TableBaseFlags(base: nat, flags: nat)
    requires base % 0x1000 == 0 && (flags == RW_P || flags == RW_P + USER)
    ensures Present(base + flags) && !Large(base + flags)
    ensures UserBit(base + flags) <==> flags == RW_P + USER
    ensures (base + flags) / 0x1000 * 0x1000 == base
  {
    var q := base / 0x1000;
    EntryBits(q, base + flags, if flags == RW_P then 0 else 1);
  }

  lemma Parity(e: nat, k: nat, r: nat)
    requires e == 2 * k + r && r < 2
    ensures e % 2 == r
  {
  }

  lemma Flag128(e: nat, k: nat, r: nat)
    requires e == 128 * k + r && r < 128
    ensures e / 128 == k
  {
  }

  lemma Page(e: nat, k: nat, r: nat)
    requires e == 0x1000 * k + r && r < 0x1000
    ensures e / 0x1000 == k
  {
  }

  /** An entry for page `q` with flags 3 or 7 reads back as written. */
  lemma EntryBits(q: nat, e: nat, user: nat)
    requires e == 0x1000 * q + 3 + 4 * user && user < 2
    ensures e % 2 == 1 && e / 0x1000 == q && e / 4 % 2 == user && e / 128 % 2 == 0
  {
    Parity(e, 2048 * q + 1 + 2 * user, 1);
    Page(e, q, 3 + 4 * user);
    Quarter(e, 1024 * q + user, 3);
    Parity(1024 * q + user, 512 * q, user);
    Flag128(e, 32 * q, 3 + 4 * user);
    Parity(32 * q, 16 * q, 0);
  }

  /** User mode reaches its own frame and the three backup screens, nothing else. */
  lemma UserReach(p: Tables, s: int, va: nat)
    requires Ready(p) && 0 <= s < 6 && SlotDirectory(p, s) && va < 0x1_0000_0000
    requires Translate(p, s + 1, va).Frame? && Translate(p, s + 1, va).user
    ensures var pa := Translate(p, s + 1, va).address;
      || (USER_START <= va < USER_END && pa == EIGHT_MB + s * 0x400000 + (va - USER_START))
      || (VID_MAP <= va < VID_MAP + 3 * 0x1000 && pa == VIDEO + FOUR_KB + (va - VID_MAP))
  {
    var j := va / 0x400000;
    if j < 2 {
      KernelIsIdentity(p, s + 1, va);
    } else if j == 32 {
      UserRange(p, s, va);
    } else {
      assert j == 34;
      TableBaseFlags(p.oneAt, RW_P + USER);
      var i := va % 0x400000 / 0x1000;
      assert p.one[i] != 0;
      TableBaseFlags(VIDEO + i * 0x1000, RW_P + USER);
      assert va == 34 * 0x400000 + i * 0x1000 + va % 0x1000;
    }
  }

  /** The address `vidmap` returns for terminal `t` reaches that terminal's backup screen exactly when
      the directory has entry 34 and the table has the terminal's page; otherwise it faults. */
  lemma VidmapAddress(p: Tables, s: int, t: int, off: nat)
    requires Ready(p) && 0 <= s < 6 && 0 <= t < 3 && SlotDirectory(p, s) && off < FOUR_KB
    ensures Translate(p, s + 1, VID_MAP + 0x1000 * t + off) ==
      if p.dirs[s + 1][34] != 0 && p.one[t + 1] != 0 then Frame(VIDEO + (t + 1) * 0x1000 + off, true) else Fault
  {
    var va := VID_MAP + 0x1000 * t + off;
    assert va / 0x400000 == 34 && va % 0x400000 / 0x1000 == t + 1 && va % 0x1000 == off;
    if p.dirs[s + 1][34] != 0 {
      TableBaseFlags(p.oneAt, RW_P + USER);
      if p.one[t + 1] != 0 { TableBaseFlags(VIDEO + (t + 1) * 0x1000, RW_P + USER); }
    }
  }

  /** The two entries that open the screens: who writes them, and that nothing ever clears them. */
  lemma ScreenEntries(p: Tables, s: int, t: int, r: int, u: int)
    requires Ready(p) && 0 <= s < DIRECTORIES - 1 && 0 <= r < DIRECTORIES - 1 && 0 <= t < 3 && 0 <= u < 3
    ensures SetPage(p, s).dirs[r + 1][34] == p.dirs[r + 1][34] && SetPage(p, s).one == p.one
    ensures SetPageVideo(p, s, t).dirs[r + 1][34] != 0 <==> r == s || p.dirs[r + 1][34] != 0
    ensures SetPageVideo(p, s, t).one[u + 1] != 0 <==> u == t || p.one[u + 1] != 0
  {
  }

  // --------------------------------------------------------------- builders

  function ZeroTable(): seq<nat> { seq(ENTRIES, (i: nat) => i * 0x1000 + RW_P) }

  function Put(entries: seq<nat>, i: nat, e: nat): seq<nat>
    requires i < |entries|
  {
    entries[i := e]
  }

  function DirectoryWith(dir: seq<nat>, zeroAt: nat, pdeIdx: nat, phys: nat): seq<nat>
    requires |dir| == ENTRIES && pdeIdx < ENTRIES && zeroAt % 0x1000 == 0 && phys % 0x400000 == 0
  {
    Put(Put(Put(dir, 0, Or(zeroAt, RW_P)), 1, Or(FOUR_MB, SIZE_4MB + RW_P)), pdeIdx, Or(phys, SIZE_4MB + RW_P + USER))
  }

  /** What both set_page functions do to directory `index`, and to `pte_zero` on the way. */
  function BuildDirectory(p: Tables, index: int, pdeIdx: int, phys: nat): Tables
    requires Shape(p) && 0 <= index < DIRECTORIES && 0 <= pdeIdx < ENTRIES && phys % 0x400000 == 0
  {
    p.(zero := ZeroTable(),
       dirs := p.dirs[index := DirectoryWith(p.dirs[index], p.zeroAt, pdeIdx, phys)])
  }

  /** `set_page` as `execute` calls it for slot `s`. */
  function SetPage(p: Tables, s: int): Tables
    requires Shape(p) && 0 <= s < DIRECTORIES - 1
  {
    BuildDirectory(p, s + 1, 32, EIGHT_MB + s * 0x400000)
  }

  /** `set_page_1` as `vidmap` calls it for slot `s` and terminal `t`. */
  function SetPageVideo(p: Tables, s: int, t: int): Tables
    requires Shape(p) && 0 <= s < DIRECTORIES - 1 && 0 <= t < 3
  {
    var q := SetPage(p, s);
    q.(dirs := q.dirs[s + 1 := Put(q.dirs[s + 1], 34, Or(p.oneAt, RW_P + USER))],
       one := Put(q.one, t + 1, Or(VIDEO + (t + 1) * 0x1000, RW_P + USER)))
  }

  /** Building a directory completes it and disturbs no other. */
  lemma SetPageKeeps(p: Tables, s: int)
    requires Ready(p) && 0 <= s < DIRECTORIES - 1
    ensures var q := SetPage(p, s);
      && Ready(q) && SlotDirectory(q, s)
      && forall r :: 0 <= r < DIRECTORIES - 1 && SlotDirectory(p, r) ==> SlotDirectory(q, r)
  {
    var q := SetPage(p, s);
    assert EmptyDirectory(p, s) || SlotDirectory(p, s);
    forall r | 0 <= r < DIRECTORIES - 1 && r != s
      ensures q.dirs[r + 1] == p.dirs[r + 1]
      ensures SlotDirectory(p, r) ==> SlotDirectory(q, r)
      ensures EmptyDirectory(p, r) ==> EmptyDirectory(q, r)
    {
    }
  }

  lemma SetPageVideoKeeps(p: Tables, s: int, t: int)
    requires Ready(p) && 0 <= s < DIRECTORIES - 1 && 0 <= t < 3
    ensures var q := SetPageVideo(p, s, t);
      && Ready(q) && SlotDirectory(q, s) && q.dirs[s + 1][34] != 0 && q.one[t + 1] != 0
      && forall r :: 0 <= r < DIRECTORIES - 1 && SlotDirectory(p, r) ==> SlotDirectory(q, r)
  {
    SetPageKeeps(p, s);
    var p1 := SetPage(p, s);
    var q := SetPageVideo(p, s, t);
    forall r | 0 <= r < DIRECTORIES - 1 && r != s
      ensures SlotDirectory(p1, r) ==> SlotDirectory(q, r)
      ensures EmptyDirectory(p1, r) ==> EmptyDirectory(q, r)
    {
      assert q.dirs[r + 1] == p1.dirs[r + 1];
    }
  }

  /** `vidmap` for slot `d` opens the screen to that slot and to no other. */
  lemma OpensOnlyFor(p: Tables, d: int, s: int, t: int, off: nat)
    requires Ready(p) && 0 <= d < 6 && 0 <= s < 6 && s != d && 0 <= t < 3 && off < FOUR_KB
    requires SlotDirectory(p, d) && SlotDirectory(p, s) && p.dirs[d + 1][34] == 0 && p.dirs[s + 1][34] == 0
    ensures var q, va := SetPageVideo(p, d, t), VID_MAP + 0x1000 * t + off;
      && Ready(q) && Translate(p, d + 1, va) == Fault && Translate(q, s + 1, va) == Fault
      && Translate(q, d + 1, va) == Frame(VIDEO + (t + 1) * 0x1000 + off, true)
  {
    SetPageVideoKeeps(p, d, t);
    ScreenEntries(p, d, t, s, t);
    VidmapAddress(p, d, t, off);
    VidmapAddress(SetPageVideo(p, d, t), d, t, off);
    VidmapAddress(SetPageVideo(p, d, t), s, t, off);
  }

  // ---------------------------------------------------- the arrays themselves

  class PageTables {
    const pdeArr: seq<array<nat>>   // pde_0 .. pde_6
    const pteZero: array<nat>
    const pteOne: array<nat>
    const zeroAt: nat
    const oneAt: nat
    var cr3: int                    // index of the loaded directory

    ghost predicate Separate() {
      && |pdeArr| == DIRECTORIES && pteZero != pteOne
      && pteZero !in pdeArr && pteOne !in pdeArr
      && (forall d, e :: 0 <= d < e < DIRECTORIES ==> pdeArr[d] != pdeArr[e])
      && (forall d :: 0 <= d < DIRECTORIES ==> pdeArr[d].Length == ENTRIES)
      && pteZero.Length == ENTRIES && pteOne.Length == ENTRIES
      && zeroAt % 0x1000 == 0 && oneAt % 0x1000 == 0 && zeroAt != oneAt
    }

    ghost function Value(): (p: Tables)
      requires Separate()
      reads pdeArr, pteZero, pteOne
      ensures Shape(p)
    {
      Tables([pdeArr[0][..], pdeArr[1][..], pdeArr[2][..], pdeArr[3][..], pdeArr[4][..], pdeArr[5][..], pdeArr[6][..]],
             pteZero[..], pteOne[..], zeroAt, oneAt)
    }

    /** The loop both builders share: every entry of `pte_zero` becomes an identity entry. */
    method FillZeroTable()
      requires Separate()
      modifies pteZero
      ensures pteZero[..] == ZeroTable()
    {
      var v := VIDEO / 0x1000;
      pteZero[v] := Or(VIDEO, RW_P);
      pteZero[v + 1] := Or(VIDEO + FOUR_KB, RW_P);
      pteZero[v + 2] := Or(VIDEO + 0x1000 * 2, RW_P);
      pteZero[v + 3] := Or(VIDEO + 0x1000 * 3, RW_P);
      var i := 0;
      while i < ENTRIES
        invariant 0 <= i <= ENTRIES
        invariant forall k :: 0 <= k < i ==> pteZero[k] == k * 0x1000 + RW_P
      {
        pteZero[i] := Or(i * 0x1000, RW_P);
        i := i + 1;
      }
    }

    /** From the zeroed arrays of the kernel image. */
    method MapPageInit()
      requires Separate()
      requires forall d, j :: 0 <= d < DIRECTORIES && 0 <= j < ENTRIES ==> pdeArr[d][j] == 0
      requires forall j :: 0 <= j < ENTRIES ==> pteOne[j] == 0
      modifies `cr3, pdeArr[0], pteZero
      ensures Ready(Value()) && cr3 == 0
      ensures forall s :: 0 <= s < DIRECTORIES - 1 ==> EmptyDirectory(Value(), s)
      ensures forall j :: 0 <= j < ENTRIES ==> Value().one[j] == 0
    {
      pdeArr[0][0] := Or(zeroAt, RW_P);
      pdeArr[0][1] := Or(FOUR_MB, SIZE_4MB + RW_P);
      FillZeroTable();
      cr3 := 0;
      forall s | 0 <= s < DIRECTORIES - 1 ensures EmptyDirectory(Value(), s) {
        assert Value().dirs[s + 1] == pdeArr[s + 1][..];
      }
    }

    /** The part of set_page and set_page_1 they have in common. */
    method Build(index: int, pdeIdx: int, phys: nat)
      requires Separate() && 0 <= index < DIRECTORIES && 0 <= pdeIdx < ENTRIES && phys % 0x400000 == 0
      modifies pdeArr[index], pteZero
      ensures Value() == BuildDirectory(old(Value()), index, pdeIdx, phys)
    {
      var dir := pdeArr[index];
      dir[0] := Or(zeroAt, RW_P);
      dir[1] := Or(FOUR_MB, SIZE_4MB + RW_P);
      FillZeroTable();
      dir[pdeIdx] := Or(phys, SIZE_4MB + RW_P + USER);
      assert forall d :: 0 <= d < DIRECTORIES && d != index ==> pdeArr[d][..] == old(pdeArr[d][..]);
      assert dir[..] == DirectoryWith(old(pdeArr[index][..]), zeroAt, pdeIdx, phys);
    }

    /** set_page(32, 8 MB + slot * 4 MB, slot + 1, 0, -1), the call `execute` makes. */
    method SetPageFor(slot: int)
      requires Separate() && 0 <= slot < DIRECTORIES - 1
      modifies `cr3, pdeArr[slot + 1], pteZero
      ensures Value() == SetPage(old(Value()), slot) && cr3 == slot + 1
    {
      Build(slot + 1, 32, EIGHT_MB + slot * 0x400000);
      cr3 := slot + 1;
    }

    /** set_page_1(32, 8 MB + slot * 4 MB, slot + 1, 1, -1, terminal), the call `vidmap` makes. */
    method SetPageVideoFor(slot: int, terminal: int) returns (address: nat)
      requires Separate() && 0 <= slot < DIRECTORIES - 1 && 0 <= terminal < 3
      modifies `cr3, pdeArr[slot + 1], pteZero, pteOne
      ensures Value() == SetPageVideo(old(Value()), slot, terminal) && cr3 == slot + 1
      ensures address == VID_MAP + 0x1000 * terminal
    {
      var screen := (terminal + 1) * 0x1000 + VIDEO;
      Build(slot + 1, 32, EIGHT_MB + slot * 0x400000);
      ghost var p1 := Value();
      var dir := pdeArr[slot + 1];
      dir[34] := Or(oneAt, RW_P + USER);
      pteOne[terminal + 1] := Or(screen, RW_P + USER);
      assert dir[..] == Put(p1.dirs[slot + 1], 34, Or(oneAt, RW_P + USER));
      assert Value().dirs == p1.dirs[slot + 1 := dir[..]];
      cr3 := slot + 1;
      address := VID_MAP + 0x1000 * terminal;
    }
  }
}
