/** Where the three regions of a queue lie in its one allocation. */
module VringLayout {
  import opened MachineWords
  import opened Arithmetic

  const PAGE := 4096

  /** A run of bytes of the allocation. */
  datatype Region = Region(start: nat, size: nat) {
    predicate Holds(k: nat) {
      start <= k < start + size
    }
  }

  /** (end + 4095) & ~4095 in 32-bit arithmetic. */
  function PageUp(end: u32): u32 {
    (end + PAGE - 1) % TWO_32 / PAGE * PAGE
  }

  /** n descriptors of 16 bytes from the start. */
  function Descriptors(n: u16): Region {
    Region(0, 16 * n)
  }

  /** Flags, index, n heads and the event field, right behind them. */
  function Avail(n: u16): Region {
    Region(16 * n, 2 * (3 + n))
  }

  /** Flags, index, n elements of 8 bytes and the event field, from the next page on. */
  function Used(n: u16): Region {
    Region(PageUp(16 * n + 2 * (3 + n)), 2 * 3 + 8 * n)
  }

  function TotalSize(n: u16): nat {
    Used(n).start + Used(n).size
  }

  /** Addresses programmed into the device, for a queue at physical address phys. */
  datatype Programmed = Programmed(desc: nat, avail: nat, used: nat)

  function Program(phys: nat, n: u16): Programmed {
    var descSize, availSize := 16 * n, 2 * (3 + n);
    Programmed(phys, phys + descSize, phys + PageUp(descSize + availSize))
  }

  /** No byte belongs to two regions, none lies outside the allocation, and a region starts right
      behind the one before it but for padding of less than a page. */
  lemma RegionsApart(n: u16, k: nat)
    requires n > 0
    ensures !(Descriptors(n).Holds(k) && Avail(n).Holds(k)) && !(Avail(n).Holds(k) && Used(n).Holds(k))
    ensures !(Descriptors(n).Holds(k) && Used(n).Holds(k))
    ensures Descriptors(n).Holds(k) || Avail(n).Holds(k) || Used(n).Holds(k) ==> k < TotalSize(n)
    ensures k < TotalSize(n) && !Descriptors(n).Holds(k) && !Avail(n).Holds(k) && !Used(n).Holds(k)
            ==> Avail(n).start + Avail(n).size <= k < Used(n).start < Avail(n).start + Avail(n).size + PAGE
  {
    var end := 16 * n + 2 * (3 + n);
    PageUpCovers(end);
  }

  lemma PageUpCovers(end: nat)
    requires end + PAGE <= TWO_32
    ensures end <= PageUp(end) < end + PAGE && PageUp(end) % PAGE == 0
  {
    var x := end + PAGE - 1;
    assert x == x / PAGE * PAGE + x % PAGE;
  }

  /** For a page-aligned queue of any size, the device is told exactly where the driver's pointers
      lead, in the alignments that section 2.7 of VirtIO 1.2 asks for. */
  lemma ProgrammedWhereUsed(phys: nat, n: u16)
    requires phys % PAGE == 0 && n > 0
    ensures var p := Program(phys, n);
            && p.desc == phys + Descriptors(n).start && p.avail == phys + Avail(n).start
            && p.used == phys + Used(n).start
            && p.desc % 16 == 0 && p.avail % 2 == 0 && p.used % 4 == 0
    // 16 bytes to a descriptor, 2 to an avail entry, 8 to a used one, and three words around each ring
    ensures var p := Program(phys, n);
            && p.desc == phys && p.avail == phys + 16 * n
            && p.avail + 6 + 2 * n <= p.used < p.avail + 6 + 2 * n + 4096 && p.used % 4096 == 0
            && Descriptors(n).size == 16 * n && Avail(n).size == 6 + 2 * n && Used(n).size == 6 + 8 * n
  {
    hide PageUp;
    var end := 16 * n + 2 * (3 + n);
    PageUpCovers(end);
    Aligned(phys / PAGE, 0);
    Aligned(phys / PAGE, PageUp(end) / PAGE);
    ModOfMultiple(0, phys / PAGE * 256 + n, 16);
    ModOfMultiple(0, phys / PAGE * 2048 + 8 * n, 2);
  }

  lemma Aligned(i: nat, u: nat)
    ensures (i * PAGE + u * PAGE) % 16 == 0 && (i * PAGE + u * PAGE) % 4 == 0
  {
    ModOfMultiple(0, 256 * i + 256 * u, 16);
    ModOfMultiple(0, 1024 * i + 1024 * u, 4);
  }
}
