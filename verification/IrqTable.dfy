/**
 * The interrupt number allocator of platform/irq/fwk_irq_desc.c and
 * fwk_irq_domain.c as it runs: the bitmap is an array of bytes, descriptors are
 * reached through the radix tree, and each domain has its `revmap`.
 */
module IrqTable {
  import opened Bitmap
  import opened NumberSearch
  import opened PathTree
  import opened RadixPaths
  import opened RadixTree
  import opened IrqSpec

  /** Every link of the tree is the descriptor of its own number. */
  ghost predicate Listed(links: map<Path, int>, descs: map<int, Desc>) {
    forall v: nat :: LinkOf(links, v) != NULL ==>
      v < WORD && LinkOf(links, v) in descs && descs[LinkOf(links, v)].irq == v
  }

  ghost function Table(links: map<Path, int>, descs: map<int, Desc>): map<int, Desc>
    requires Listed(links, descs)
  {
    map v | 0 <= v < WORD && LinkOf(links, v) != NULL :: descs[LinkOf(links, v)]
  }

  lemma TableHas(links: map<Path, int>, descs: map<int, Desc>, v: nat)
    requires Listed(links, descs)
    ensures v in Table(links, descs) <==> LinkOf(links, v) != NULL
    ensures LinkOf(links, v) != NULL ==>
      LinkOf(links, v) in descs && Table(links, descs)[v] == descs[LinkOf(links, v)]
  {}

  lemma TableAdds(links: map<Path, int>, descs: map<int, Desc>, v: nat, a: int, c: Desc)
    requires Listed(links, descs) && v < WORD && c.irq == v
    requires a != NULL && a !in descs && LinkOf(links, v) == NULL
    ensures Listed(links[PathOf(v) := a], descs[a := c])
    ensures Table(links[PathOf(v) := a], descs[a := c]) == Table(links, descs)[v := c]
  {
    hide LinkOf, PathOf;
    var links' := links[PathOf(v) := a];
    forall m: nat ensures LinkOf(links', m) == if m == v then a else LinkOf(links, m) {
      LinksFormMap(links, v, a, m);
    }
    forall m: nat | LinkOf(links', m) != NULL
      ensures m < WORD && LinkOf(links', m) in descs[a := c] && descs[a := c][LinkOf(links', m)].irq == m
    {
      assert m != v ==> LinkOf(links, m) in descs;
    }
  }

  lemma TableWrites(links: map<Path, int>, descs: map<int, Desc>, v: nat, c: Desc)
    requires Listed(links, descs) && c.irq == v && LinkOf(links, v) != NULL
    ensures Listed(links, descs[LinkOf(links, v) := c])
    ensures Table(links, descs[LinkOf(links, v) := c]) == Table(links, descs)[v := c]
  {
    hide LinkOf;
  }

  lemma TableDrops(links: map<Path, int>, descs: map<int, Desc>, v: nat)
    requires Listed(links, descs) && LinkOf(links, v) != NULL
    ensures Listed(links - {PathOf(v)}, descs - {LinkOf(links, v)})
    ensures Table(links - {PathOf(v)}, descs - {LinkOf(links, v)}) == Table(links, descs) - {v}
  {
    hide LinkOf;
    forall m: nat ensures LinkOf(links - {PathOf(v)}, m) == if m == v then NULL else LinkOf(links, m) {
      LinksFormMap(links, v, NULL, m);
    }
  }

  /** The table with the descriptors of virq, virq + 1, ... made but not yet
      filled in. */
  ghost function Blank(table: map<int, Desc>, virq: nat, nr: nat): (r: map<int, Desc>)
    ensures forall v :: v in r <==> v in table || Within(v, virq, nr)
    ensures forall v :: v in r ==> r[v] == if Within(v, virq, nr) then Desc(v, 0, NONE, 0) else table[v]
  {
    if nr == 0 then table
    else Blank(table, virq, nr - 1)[virq + nr - 1 := Desc(virq + nr - 1, 0, NONE, 0)]
  }

  lemma EnteredOverBlank(table: map<int, Desc>, d: nat, h: nat, virq: nat, nr: nat)
    ensures Entered(Blank(table, virq, nr), d, h, virq, nr) == Entered(table, d, h, virq, nr)
  {
    hide Entered, Blank;
    var a, b := Entered(Blank(table, virq, nr), d, h, virq, nr), Entered(table, d, h, virq, nr);
    assert forall v :: v in a <==> v in b;
    assert forall v :: v in a ==> a[v] == b[v];
  }

  lemma RenumberedNext(revmap: seq<int>, h: nat, virq: nat, n: nat)
    requires h + n < |revmap|
    ensures Renumbered(revmap, h, virq, 0) == revmap
    ensures Renumbered(revmap, h, virq, n + 1) == Renumbered(revmap, h, virq, n)[h + n := virq + n]
  {}

  /** One more hardware number given up. */
  lemma FreedNext(s: Irqs, d: nat, n: nat)
    requires IrqInv(s) && d < |s.maps| && n < |s.maps[d]|
    ensures var r, v := Freed(s, d, n), s.maps[d][n];
      && r.maps[d][n] == v && IrqInv(r) && |r.bits| == DESC_MAX
      && (v < 0 ==> Freed(s, d, n + 1) == r)
      && (v >= 0 ==> v in r.table && r.table[v].dataIrq == v && v + 1 < DESC_MAX)
      && (v >= 0 ==> Freed(s, d, n + 1) == Irqs(
            Filled(r.bits, v, 1, false), r.table - {v}, r.maps[d := r.maps[d][n := NONE]]))
  {
    hide IrqInv;
    var r, v, t := Freed(s, d, n), s.maps[d][n], Freed(s, d, n + 1);
    FreedInv(s, d, n);
    GoneNext(s, d, n);
    assert t.maps[d] == r.maps[d][n := NONE];
    assert t.maps == r.maps[d := r.maps[d][n := NONE]];
    if v >= 0 {
      assert t.bits == Filled(r.bits, v, 1, false);
      assert t.table == r.table - {v};
      MarkedBelow(r, v);
    } else {
      assert t.maps[d] == r.maps[d];
    }
  }

  lemma MarkedBelow(s: Irqs, v: nat)
    requires IrqInv(s) && v in s.table
    ensures v + 1 < DESC_MAX && s.table[v].dataIrq == v && s.table[v].irq == v
  {
    assert Backed(s, v);
  }

  lemma InvAt(s: Irqs, d: nat, h: nat, u: int)
    requires IrqInv(s) && d < |s.maps| && h < |s.maps[d]|
    ensures |s.bits| == DESC_MAX && Mapped(s, d, h)
    ensures u in s.table ==> Backed(s, u) && u < DESC_MAX
    ensures NONE !in s.table
  {}

  lemma GoneStep(s: Irqs, d: nat, n: nat, u: int)
    requires IrqInv(s) && d < |s.maps| && n < |s.maps[d]|
    ensures Gone(s, d, n + 1, u) <==> Gone(s, d, n, u) || (u == s.maps[d][n] && u >= 0)
  {
    hide IrqInv;
    InvAt(s, d, n, u);
    if u in s.table {
      var c := s.table[u];
      assert c.domain == d && c.hwirq == n <==> u == s.maps[d][n];
    }
  }

  lemma GoneNext(s: Irqs, d: nat, n: nat)
    requires IrqInv(s) && d < |s.maps| && n < |s.maps[d]|
    ensures |s.bits| == DESC_MAX
    ensures forall u :: Gone(s, d, n + 1, u) <==> Gone(s, d, n, u) || (u == s.maps[d][n] && u >= 0)
    ensures var v := s.maps[d][n]; v == NONE || (0 <= v < DESC_MAX && v in s.table && !Gone(s, d, n, v))
  {
    hide IrqInv, Gone;
    InvAt(s, d, n, s.maps[d][n]);
    forall u ensures Gone(s, d, n + 1, u) <==> Gone(s, d, n, u) || (u == s.maps[d][n] && u >= 0) {
      GoneStep(s, d, n, u);
    }
    NotYetGone(s, d, n);
  }

  lemma NotYetGone(s: Irqs, d: nat, n: nat)
    requires d < |s.maps| && n < |s.maps[d]| && Mapped(s, d, n) && NONE !in s.table
    ensures !Gone(s, d, n, s.maps[d][n])
  {}

  class IrqTable {
    const bitmap: array<bv8>
    const tree: Tree
    var descs: map<int, Desc>
    var maps: seq<seq<int>>

    ghost predicate Linked()
      reads this, bitmap, tree
    {
      bitmap.Length == DESC_MAX / 8 && tree.Valid() && Listed(tree.links, descs)
    }

    ghost function State(): Irqs
      requires Linked()
      reads this, bitmap, tree
    {
      Irqs(Bits(bitmap[..]), Table(tree.links, descs), maps)
    }

    ghost predicate Valid()
      reads this, bitmap, tree
    {
      Linked() && IrqInv(State())
    }

    constructor ()
      ensures fresh(bitmap) && fresh(tree) && Valid() && State() == Initial()
    {
      hide Shape, Holds, Wide, IrqInv, PathOf;
      bitmap := new bv8[DESC_MAX / 8](i => 0);
      tree := new Tree();
      descs := map[];
      maps := [];
      new;
      assert State().bits == Initial().bits;
      InitialInv();
    }

    method AddLinear(size: nat) returns (d: nat)
      requires Valid()
      modifies this
      ensures Valid() && State() == AddedDomain(old(State()), size) && d == old(|maps|)
    {
      hide Shape, Holds, Wide, IrqInv, Listed, Table;
      var revmap: seq<int> := [];
      for i := 0 to size
        invariant revmap == Unmapped(i)
      {
        revmap := revmap + [NONE];
      }
      AddedInv(State(), size);
      d := |maps|;
      maps := maps + [revmap];
    }

    /** The address of the descriptor of a number, or null. */
    method ToDesc(virq: nat) returns (a: int)
      requires Linked() && virq < WORD
      ensures a == LinkOf(tree.links, virq)
      ensures a != NULL <==> virq in State().table
      ensures a != NULL ==> a in descs && descs[a] == State().table[virq] && descs[a].irq == virq
    {
      TableHas(tree.links, descs, virq);
      a := tree.LookUp(virq);
    }

    /** Searches for `nr` free numbers, makes a descriptor for each and marks
        them. The error code of a search that fails passes for a number here:
        descriptors are made for it too, but nothing is marked. */
    method AllocDescs(base: int, nr: nat) returns (virq: int)
      requires Valid() && 0 < nr < 0x8000_0000 && base < 0x8000_0000
      requires Halts(State().bits, nr, Start(base))
      modifies this`descs, bitmap, tree
      ensures Linked() && virq == Chosen(old(State()).bits, nr, Start(base))
      ensures virq != MORE ==> 0 <= virq && virq + nr < DESC_MAX
      ensures State() == if virq == MORE then old(State()).(table := Made(old(State()).table, STRAY, nr))
                         else old(State()).(bits := Filled(old(State()).bits, virq, nr, true),
                                            table := Blank(old(State()).table, virq, nr))
    {
      hide Shape, Holds, Wide, Listed, Table, Bits, IrqInv, Chosen, LinkOf, PathOf, Blank, Made, Halts;
      ghost var s := State();
      ChosenNumber(s, base, nr);
      var found := FindAreas(bitmap, base, nr);
      var number: nat := if found < 0 then found + WORD else found;
      MadeNext(s.table, number, 0);
      var i := 0;
      while i < nr
        invariant 0 <= i <= nr && Linked() && bitmap[..] == old(bitmap[..])
        invariant Table(tree.links, descs) == Made(s.table, number, i)
      {
        MakeDesc((number + i) % WORD);
        MadeNext(s.table, number, i);
        i := i + 1;
      }
      SetNrBit(bitmap, number, DESC_MAX, nr, true);
      if found != MORE {
        FreeNumbers(s, found, nr);
        MadeIsBlank(s.table, found, nr);
      }
      return if number < 0x8000_0000 then number else number - WORD;
    }

    /** A new descriptor for a number; one that has a descriptor keeps it. */
    method MakeDesc(v: nat)
      requires Linked() && v < WORD
      modifies this`descs, tree
      ensures Linked()
      ensures Table(tree.links, descs) ==
        if v in old(Table(tree.links, descs)) then old(Table(tree.links, descs))
        else old(Table(tree.links, descs))[v := Desc(v, 0, NONE, 0)]
    {
      hide Shape, Holds, Wide, Listed, Table, LinkOf, PathOf;
      TableHas(tree.links, descs, v);
      FreshAddress(descs.Keys);
      var a :| a !in descs && a > ROOT;
      NoLink(tree.links, v) by { tree.KeyedLinks(); }
      if LinkOf(tree.links, v) == NULL {
        TableAdds(tree.links, descs, v, a, Desc(v, 0, NONE, 0));
      } else {
        TableLeaks(tree.links, descs, a, Desc(v, 0, NONE, 0));
      }
      descs := descs[a := Desc(v, 0, NONE, 0)];
      tree.Add(v, a);
    }

    /** Fills in the descriptors of virq, virq + 1, ... and maps to them. */
    method AllocIrqData(d: nat, virq: nat, h: nat, nr: nat)
      requires Linked() && d < |maps| && h + nr <= |maps[d]| && virq + nr <= DESC_MAX
      requires forall v :: Within(v, virq, nr) ==> v in State().table
      modifies this
      ensures Linked()
      ensures State() == old(State()).(table := Entered(old(State()).table, d, h, virq, nr),
                                       maps := old(maps)[d := Renumbered(old(maps)[d], h, virq, nr)])
    {
      hide Shape, Holds, Wide, Listed, Table, Bits, LinkOf, PathOf, Entered;
      ghost var s := State();
      EnteredNext(s.table, d, h, virq, 0);
      assert Renumbered(s.maps[d], h, virq, 0) == s.maps[d];
      var i := 0;
      while i < nr
        invariant 0 <= i <= nr && Linked()
        invariant Table(tree.links, descs) == Entered(s.table, d, h, virq, i)
        invariant maps == s.maps[d := Renumbered(s.maps[d], h, virq, i)]
      {
        assert Within(virq + i, virq, nr);
        var data := ToDesc(virq + i);
        EnteredNext(s.table, d, h, virq, i);
        RenumberedNext(s.maps[d], h, virq, i);
        TableWrites(tree.links, descs, virq + i, Desc(virq + i, virq + i, d, h + i));
        descs := descs[data := Desc(descs[data].irq, virq + i, d, h + i)];
        maps := maps[d := maps[d][h + i := virq + i]];
        i := i + 1;
      }
    }

    /** Allocates `nr` numbers for hardware numbers h, h + 1, ... of a domain. The
        structures still agree if and only if none of these was mapped and the
        search succeeds. */
    method AllocIrqs(d: nat, base: int, h: nat, nr: nat) returns (virq: int)
      requires Valid() && d < |maps| && h + nr <= |maps[d]| && 0 < nr < 0x8000_0000 && base < 0x8000_0000
      requires Halts(State().bits, nr, Start(base))
      modifies this, bitmap, tree
      ensures Linked() && virq == Chosen(old(State()).bits, nr, Start(base))
      ensures State() == After(old(State()), d, h, base, nr)
      ensures Valid() <==> FreeRange(old(State()), d, h, nr) && virq != MORE
    {
      hide Shape, Holds, Wide, Listed, Table, Bits, IrqInv, Blank, Entered, Chosen, Made, Halts, FreeRange;
      ghost var s := State();
      ChosenNumber(s, base, nr);
      AllocKeepsIff(s, d, h, base, nr);
      virq := AllocDescs(base, nr);
      if virq >= 0 {
        EnteredOverBlank(s.table, d, h, virq, nr);
        AllocIrqData(d, virq, h, nr);
      }
    }

    /** The number of a mapped hardware number; it is checked against the
        descriptor. */
    method FindMapping(d: nat, h: nat) returns (v: int)
      requires Valid() && d < |maps| && h < |maps[d]|
      ensures v == Find(State(), d, h) && v == maps[d][h]
    {
      hide Shape, Holds, Wide, IrqInv, Listed, Table, Bits, LinkOf, PathOf;
      FindIsMap(State(), d, h);
      var virq := maps[d][h];
      if virq < 0 {
        return NONE;
      }
      EntryBelow(State(), d, h);
      var data := ToDesc(virq);
      if data != NULL {
        return if descs[data].hwirq == h && descs[data].domain == d then descs[data].dataIrq else NONE;
      }
      return NONE;
    }

    /** The number of a hardware number, mapped now if it is not yet. */
    method CreateMapping(d: nat, h: nat) returns (virq: int)
      requires Valid() && Mappable(State(), d, h)
      modifies this, bitmap, tree
      ensures Linked() && State() == Looked(old(State()), d, h)
      ensures virq == Yielded(old(State()), d, h) && (Valid() <==> virq >= 0)
      ensures virq != MORE ==> d < |maps| && h < |maps[d]| && virq == Find(State(), d, h)
    {
      hide Shape, Holds, Wide, IrqInv, Listed, Table, Bits, Halts, Chosen, After;
      ghost var s := State();
      FindIsMap(s, d, h);
      EntryOrNone(s, d, h);
      YieldedFound(s, d, h);
      virq := FindMapping(d, h);
      if virq >= 0 {
        return;
      }
      ChosenNumber(s, -1, 1);
      virq := AllocIrqs(d, -1, h, 1);
    }

    /** Gives up one number: bitmap, tree and descriptor. */
    method DescFree(irq: nat)
      requires Linked() && irq in State().table && State().table[irq].dataIrq == irq && irq + 1 < DESC_MAX
      modifies this`descs, bitmap, tree
      ensures Linked()
      ensures State() == old(State()).(bits := Filled(old(State()).bits, irq, 1, false),
                                       table := old(State()).table - {irq})
    {
      hide Shape, Holds, Wide, Listed, Table, Bits, LinkOf, PathOf;
      var desc := ToDesc(irq);
      TableDrops(tree.links, descs, irq);
      SetNrBit(bitmap, descs[desc].dataIrq, DESC_MAX, 1, false);
      tree.Del(descs[desc].dataIrq);
      descs := descs - {desc};
    }

    /** Gives up every number of a domain. */
    method FreeIrqs(d: nat)
      requires Valid() && Enabled(State(), Release(d))
      modifies this, bitmap, tree
      ensures Valid() && State() == Step(old(State()), Release(d))
    {
      hide Shape, Holds, Wide, IrqInv, Listed, Table, Bits;
      ghost var s := State();
      FreedNothing(s, d);
      FreedInv(s, d, |s.maps[d]|);
      var idx := 0;
      while idx < |maps[d]|
        invariant d < |maps| && |maps[d]| == |s.maps[d]| && 0 <= idx <= |s.maps[d]|
        invariant Linked() && State() == Freed(s, d, idx)
      {
        FreedNext(s, d, idx);
        if maps[d][idx] >= 0 {
          DescFree(maps[d][idx]);
          maps := maps[d := maps[d][idx := NONE]];
        }
        idx := idx + 1;
      }
    }
  }

  lemma FreedNothing(s: Irqs, d: nat)
    requires d < |s.maps|
    ensures Freed(s, d, 0) == s
  {
    assert Freed(s, d, 0).bits == s.bits;
    assert Freed(s, d, 0).table == s.table;
    assert Freed(s, d, 0).maps[d] == s.maps[d];
  }

  lemma EntryBelow(s: Irqs, d: nat, h: nat)
    requires IrqInv(s) && d < |s.maps| && h < |s.maps[d]| && s.maps[d][h] >= 0
    ensures s.maps[d][h] < WORD
  {
    assert Mapped(s, d, h);
  }

  lemma NoLink(links: map<Path, int>, v: nat)
    requires forall w :: w in links ==> links[w] != NULL
    ensures PathOf(v) in links <==> LinkOf(links, v) != NULL
  {}

  /** What the search yields is its error code or a number of the bitmap. */
  lemma ChosenNumber(s: Irqs, base: int, nr: nat)
    requires IrqInv(s) && nr > 0
    ensures |s.bits| == DESC_MAX && Usable(s.bits)
    ensures var v := Chosen(s.bits, nr, Start(base)); v != MORE ==> 0 <= v && v + nr < DESC_MAX && Fits(s.bits, v, nr)
  {
    hide Chosen;
    ChosenFits(s.bits, nr, Start(base));
  }

  lemma MadeNext(table: map<int, Desc>, virq: nat, n: nat)
    ensures Made(table, virq, 0) == table
    ensures var was, v := Made(table, virq, n), (virq + n) % WORD;
      Made(table, virq, n + 1) == if v in was then was else was[v := Desc(v, 0, NONE, 0)]
  {}

  lemma {:induction false} MadeIsBlank(table: map<int, Desc>, virq: nat, nr: nat)
    requires virq + nr < DESC_MAX && forall v :: Within(v, virq, nr) ==> v !in table
    ensures Made(table, virq, nr) == Blank(table, virq, nr)
  {
    hide Made, Blank;
    if nr == 0 {
      MadeNext(table, virq, 0);
      BlankNext(table, virq, 0);
    } else {
      assert Within(virq + nr - 1, virq, nr);
      MadeIsBlank(table, virq, nr - 1);
      MadeNext(table, virq, nr - 1);
      BlankNext(table, virq, nr - 1);
    }
  }

  /** A descriptor that no link leads to. */
  lemma TableLeaks(links: map<Path, int>, descs: map<int, Desc>, a: int, c: Desc)
    requires Listed(links, descs) && a !in descs
    ensures Listed(links, descs[a := c]) && Table(links, descs[a := c]) == Table(links, descs)
  {
    hide LinkOf;
  }

  lemma FreeNumbers(s: Irqs, virq: nat, nr: nat)
    requires IrqInv(s) && Fits(s.bits, virq, nr)
    ensures |s.bits| == DESC_MAX && virq + nr < DESC_MAX
    ensures forall v :: Within(v, virq, nr) ==> v !in s.table
  {}

  lemma BlankNext(table: map<int, Desc>, virq: nat, n: nat)
    ensures Blank(table, virq, 0) == table
    ensures Blank(table, virq, n + 1) == Blank(table, virq, n)[virq + n := Desc(virq + n, 0, NONE, 0)]
  {}

  lemma EnteredNext(table: map<int, Desc>, d: nat, h: nat, virq: nat, n: nat)
    ensures Entered(table, d, h, virq, 0) == table
    ensures Entered(table, d, h, virq, n + 1)
         == Entered(table, d, h, virq, n)[virq + n := Desc(virq + n, virq + n, d, h + n)]
  {}
}
