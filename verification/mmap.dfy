/** The kernel's side of `brk`: `syscall_brk` of `kernel/system/syscall.c` and `mmap_brk` of
    `kernel/memory/mmap.c`. */
module Mmap {
  const PAGE: nat := 4096
  const EINVAL: int := 22

  // struct process_vm, as far as brk goes
  datatype Area = Area(start: nat, end: nat)

  predicate OnPage(a: nat) { a % PAGE == 0 }

  function PageAlign(a: nat): nat { (a + PAGE - 1) / PAGE * PAGE }

  function Max(a: nat, b: nat): nat { if a < b then b else a }

  lemma PageAlignIs(a: nat)
    ensures OnPage(PageAlign(a)) && a <= PageAlign(a) < a + PAGE
    ensures OnPage(a) ==> PageAlign(a) == a
  {
  }

  predicate Contains(a: Area, addr: nat) { a.start <= addr < a.end }

  ghost predicate Disjoint(areas: seq<Area>) {
    forall i, j :: 0 <= i < j < |areas| ==> areas[i].end <= areas[j].start || areas[j].end <= areas[i].start
  }

  /** Every page from `lo` up to `hi` is mapped. */
  ghost predicate Covered(mapped: map<nat, nat>, lo: nat, hi: nat) {
    forall p :: lo <= p < hi && p % PAGE == 0 ==> p in mapped
  }

  /** The area `h` may grow up to `end` without running into another one. */
  ghost predicate RoomTo(areas: seq<Area>, h: nat, end: nat) {
    h < |areas| && forall j :: 0 <= j < |areas| && j != h && areas[j].start >= areas[h].end ==> end <= areas[j].start
  }

  /** The areas after the end of area `h` went up to `brk`, if that is above it. */
  ghost predicate GrownTo(areas: seq<Area>, areas': seq<Area>, h: nat, brk: nat) {
    h < |areas| && areas' == areas[h := areas[h].(end := Max(areas[h].end, brk))]
  }

  lemma GrownTwice(areas: seq<Area>, areas1: seq<Area>, areas2: seq<Area>, h: nat, brk1: nat, brk2: nat)
    requires GrownTo(areas, areas1, h, brk1) && GrownTo(areas1, areas2, h, brk2) && brk1 <= brk2
    ensures GrownTo(areas, areas2, h, brk2)
  {
  }

  /** An area that grows stays disjoint from the others exactly if there is room for it. */
  lemma GrownDisjoint(areas: seq<Area>, areas': seq<Area>, h: nat, brk: nat)
    requires Disjoint(areas) && GrownTo(areas, areas', h, brk)
    requires forall i :: 0 <= i < |areas| ==> areas[i].start < areas[i].end
    ensures Disjoint(areas') <==> brk <= areas[h].end || RoomTo(areas, h, brk)
  {
    if brk <= areas[h].end || RoomTo(areas, h, brk) {
      forall i, j | 0 <= i < j < |areas|
        ensures areas'[i].end <= areas'[j].start || areas'[j].end <= areas'[i].start
      {
        assert areas[i].end <= areas[j].start || areas[j].end <= areas[i].start;
      }
    } else {
      var j :| 0 <= j < |areas| && j != h && areas[j].start >= areas[h].end && brk > areas[j].start;
      assert areas'[j] == areas[j] && areas'[h].end == brk && areas'[h].start == areas[h].start;
      if h < j {
        assert !(areas'[h].end <= areas'[j].start) && !(areas'[j].end <= areas'[h].start);
      } else {
        assert !(areas'[j].end <= areas'[h].start) && !(areas'[h].end <= areas'[j].start);
      }
    }
  }

  /** The pages from `lo` up to `hi` map to frames in a row from `physical` on, and the others as they
      did. */
  ghost predicate MappedOver(m: map<nat, nat>, m': map<nat, nat>, lo: nat, hi: nat, physical: nat) {
    && (forall p :: p in m && !(lo <= p < hi) ==> p in m' && m'[p] == m[p])
    && (forall p :: lo <= p < hi && p % PAGE == 0 ==> p in m' && m'[p] == physical + (p - lo))
    && (forall p :: p in m' ==> p in m || lo <= p < hi)
  }

  lemma NothingMapped(m: map<nat, nat>, lo: nat, hi: nat, physical: nat)
    requires hi <= lo
    ensures MappedOver(m, m, lo, hi, physical)
  {
  }

  lemma MoreCovered(m: map<nat, nat>, m': map<nat, nat>, start: nat, end: nat, hi: nat, physical: nat)
    requires Covered(m, start, end) && MappedOver(m, m', end, hi, physical)
    ensures Covered(m', start, hi)
  {
  }

  class Mm {
    const brkStart: nat
    var brk: nat
    var areas: seq<Area>
    // the page directory's user pages, each with its frame, and the next frame in a row
    var mapped: map<nat, nat>
    var nextFrame: nat

    // which area is the heap's
    ghost const heap: nat

    constructor (brkStart: nat, areas: seq<Area>, mapped: map<nat, nat>, nextFrame: nat, heap: nat)
      requires heap < |areas| && Contains(areas[heap], brkStart) && Disjoint(areas)
      requires forall i :: 0 <= i < |areas| ==> areas[i].start < areas[i].end
      requires OnPage(areas[heap].start) && OnPage(areas[heap].end) &&
               Covered(mapped, areas[heap].start, areas[heap].end)
      ensures Valid() && brk == brkStart && this.areas == areas && this.heap == heap && this.brkStart == brkStart
      ensures this.mapped == mapped && this.nextFrame == nextFrame
    {
      this.brkStart, this.areas, this.mapped, this.nextFrame, this.heap := brkStart, areas, mapped, nextFrame, heap;
      brk := brkStart;
    }

    /** The break lies within the heap area, whose pages are all mapped. */
    ghost predicate Valid()
      reads this
    {
      && heap < |areas| && Contains(areas[heap], brkStart)
      && (forall i :: 0 <= i < |areas| && i != heap ==> !Contains(areas[i], brkStart))
      && (forall i :: 0 <= i < |areas| ==> areas[i].start < areas[i].end)
      && OnPage(areas[heap].start) && OnPage(areas[heap].end)
      && brkStart <= brk <= areas[heap].end
      && Covered(mapped, areas[heap].start, areas[heap].end)
    }

    /** `mmap_find_vm` */
    method FindVm(addr: nat) returns (i: nat)
      ensures i <= |areas| && (forall j :: 0 <= j < i ==> !Contains(areas[j], addr)) &&
              (i < |areas| ==> Contains(areas[i], addr))
    {
      i := 0;
      while i < |areas| && !(addr >= areas[i].start && addr < areas[i].end)
        invariant i <= |areas| && forall j :: 0 <= j < i ==> !Contains(areas[j], addr)
      {
        i := i + 1;
      }
    }

    /** The mapping loop of `mmap_brk`. */
    method MapPages(start: nat, end: nat, physical0: nat)
      requires OnPage(start) && OnPage(end)
      modifies this`mapped
      ensures MappedOver(old(mapped), mapped, start, end, physical0)
    {
      var virtual, physical := start, physical0;
      while virtual < end
        invariant OnPage(virtual) && start <= virtual && (virtual <= end || virtual == start) &&
                  physical == physical0 + (virtual - start)
        invariant forall p :: p in old(mapped) && !(start <= p < end) ==> p in mapped && mapped[p] == old(mapped)[p]
        invariant forall p :: start <= p < virtual && p % PAGE == 0 ==>
                  p in mapped &&
                  mapped[p] == physical0 + (p - start)
        invariant forall p :: p in mapped ==> p in old(mapped) || start <= p < end
      {
        mapped := mapped[virtual := physical];
        virtual := virtual + PAGE;
        physical := physical + PAGE;
      }
    }

    /** `mmap_brk`.  The break is set before it is compared, so that the heap area grows in place
        whatever lies behind, mapping over it, and never shrinks.  The areas stay disjoint exactly if
        there is room. */
    method Brk(addr: nat, len: nat) returns (r: int)
      requires Valid() && addr == brkStart
      modifies this`brk, this`areas, this`mapped, this`nextFrame
      ensures Valid() && r == 0 && brk == PageAlign(addr + len) && GrownTo(old(areas), areas, heap, brk)
      ensures old(Disjoint(areas)) ==>
              (Disjoint(areas) <==> brk <= old(areas)[heap].end || RoomTo(old(areas), heap, brk))
      ensures MappedOver(old(mapped), mapped, old(areas)[heap].end, brk, old(nextFrame))
      ensures nextFrame == old(nextFrame) + (areas[heap].end - old(areas)[heap].end)
    {
      hide PageAlign, OnPage, RoomTo, MappedOver, Disjoint;
      PageAlignIs(addr + len);
      var i := FindVm(addr);
      OnlyOne(i);
      var newBrk := PageAlign(addr + len);
      brk := newBrk;
      var end := areas[i].end;
      if Disjoint(areas) {
        GrownDisjoint(areas, areas[heap := areas[heap].(end := Max(end, newBrk))], heap, newBrk);
      }
      if end >= newBrk {
        assert areas == areas[heap := areas[heap].(end := Max(end, newBrk))];
        NothingMapped(mapped, end, newBrk, nextFrame);
        return 0;
      }
      var physical := nextFrame;
      nextFrame := nextFrame + (newBrk - end);
      ghost var before := mapped;
      MapPages(end, newBrk, physical);
      MoreCovered(before, mapped, areas[i].start, end, newBrk, physical);
      areas := areas[i := areas[i].(end := newBrk)];
      return 0;
    }

    lemma OnlyOne(i: nat)
      requires Valid() && i <= |areas| && (forall j :: 0 <= j < i ==> !Contains(areas[j], brkStart)) &&
               (i < |areas| ==> Contains(areas[i], brkStart))
      ensures i == heap
    {
    }

    /** `syscall_brk` */
    method SyscallBrk(addr: nat) returns (r: int)
      requires Valid()
      modifies this`brk, this`areas, this`mapped, this`nextFrame
      ensures Valid()
      ensures addr == 0 ==> r == brk
      ensures addr > 0 && addr < brkStart ==> r == -EINVAL
      ensures addr == 0 || addr < brkStart ==> brk == old(brk) && areas == old(areas) && mapped == old(mapped)
      ensures addr >= brkStart && addr > 0 ==> r == 0 && brk == PageAlign(addr) && GrownTo(old(areas), areas, heap, brk)
      ensures addr >= brkStart && addr > 0 ==>
              MappedOver(old(mapped), mapped, old(areas)[heap].end, brk, old(nextFrame))
      ensures nextFrame == old(nextFrame) + (areas[heap].end - old(areas)[heap].end)
    {
      if addr == 0 {
        return brk;
      }
      if addr < brkStart {
        return -EINVAL;
      }
      r := Brk(brkStart, addr - brkStart);
    }
  }

  /** Two areas of a page each: half a page of heap too many takes the second one's page away. */
  method BrkOverlaps() returns (mm: Mm)
    ensures mm.Valid() && !Disjoint(mm.areas) && 0x2000 in mm.mapped && mm.mapped[0x2000] != 0x8000
  {
    var areas := [Area(0x1000, 0x2000), Area(0x2000, 0x3000)];
    mm := new Mm(0x1000, areas, map[0x1000 := 0x7000, 0x2000 := 0x8000], 0x9000, 0);
    assert PageAlign(0x1000 + 0x1800) == 0x3000;
    assert areas[1].start >= areas[0].end;
    var r := mm.Brk(0x1000, 0x1800);
  }
}
