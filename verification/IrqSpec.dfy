/**
 * The virtual interrupt numbers of platform/irq/fwk_irq_desc.c and
 * fwk_irq_domain.c as values: the bitmap of numbers in use, the descriptor of
 * each number, and each domain's map from hardware numbers to virtual ones.
 */
module IrqSpec {
  import opened Bitmap
  import opened NumberSearch
  import RadixPaths

  const DESC_MAX: nat := 1024
  /** No domain, or no number. */
  const NONE: int := -1

  datatype Desc = Desc(irq: nat, dataIrq: nat, domain: int, hwirq: nat)

  datatype Irqs = Irqs(bits: seq<bool>, table: map<int, Desc>, maps: seq<seq<int>>)

  /** The three structures agree: a number is marked in the bitmap exactly when
      it has a descriptor, and hardware number h of domain d maps to v exactly
      when the descriptor of v names d and h. */
  ghost predicate IrqInv(s: Irqs) {
    && |s.bits| == DESC_MAX && Usable(s.bits)
    && (forall v :: v in s.table <==> 0 <= v < DESC_MAX && s.bits[v])
    && (forall v :: v in s.table ==> Backed(s, v))
    && (forall d: nat, h: nat :: d < |s.maps| && h < |s.maps[d]| ==> Mapped(s, d, h))
  }

  /** The descriptor of `v` is mapped to from where it says. */
  ghost predicate Backed(s: Irqs, v: int)
    requires v in s.table
  {
    var c := s.table[v];
    && c.irq == v && c.dataIrq == v
    && 0 <= c.domain < |s.maps| && c.hwirq < |s.maps[c.domain]|
    && s.maps[c.domain][c.hwirq] == v
  }

  /** An entry that maps to a number is that number's own. */
  ghost predicate Mapped(s: Irqs, d: nat, h: nat)
    requires d < |s.maps| && h < |s.maps[d]|
  {
    var v := s.maps[d][h];
    v == NONE || (0 <= v && v in s.table && s.table[v].domain == d && s.table[v].hwirq == h)
  }

  function Initial(): Irqs {
    Irqs(seq(DESC_MAX, i => false), map[], [])
  }

  // ------------------------------------------------------------ operations

  function Unmapped(size: nat): seq<int> {
    seq(size, i => NONE)
  }

  function AddedDomain(s: Irqs, size: nat): Irqs {
    s.(maps := s.maps + [Unmapped(size)])
  }

  predicate Within(v: int, base: int, nr: nat) {
    base <= v < base + nr
  }

  /** The table with descriptors for virq, virq + 1, ...; `d` and `h` tell where
      they are mapped from. */
  function Entered(table: map<int, Desc>, d: nat, h: nat, virq: nat, nr: nat): (r: map<int, Desc>)
    ensures forall v :: v in r <==> v in table || Within(v, virq, nr)
    ensures forall v :: v in r ==> r[v] == if Within(v, virq, nr) then Desc(v, v, d, h + v - virq) else table[v]
  {
    if nr == 0 then table
    else
      var v := virq + nr - 1;
      Entered(table, d, h, virq, nr - 1)[v := Desc(v, v, d, h + nr - 1)]
  }

  function Renumbered(revmap: seq<int>, h: nat, virq: nat, nr: nat): seq<int>
    requires h + nr <= |revmap|
  {
    revmap[..h] + seq(nr, i => virq + i) + revmap[h + nr..]
  }

  /** Numbers virq, virq + 1, ... given to hardware numbers h, h + 1, ... */
  function Allocated(s: Irqs, d: nat, h: nat, virq: nat, nr: nat): Irqs
    requires d < |s.maps| && h + nr <= |s.maps[d]| && virq + nr <= |s.bits|
  {
    Irqs(Filled(s.bits, virq, nr, true), Entered(s.table, d, h, virq, nr),
         s.maps[d := Renumbered(s.maps[d], h, virq, nr)])
  }

  predicate Gone(s: Irqs, d: nat, n: nat, v: int) {
    v in s.table && s.table[v].domain == d && s.table[v].hwirq < n
  }

  /** The numbers that the first `n` hardware numbers of domain `d` map to
      given up. */
  function Freed(s: Irqs, d: nat, n: nat): Irqs
    requires d < |s.maps| && n <= |s.maps[d]|
  {
    Irqs(seq(|s.bits|, v requires 0 <= v < |s.bits| => s.bits[v] && !Gone(s, d, n, v)),
         map v | v in s.table && !Gone(s, d, n, v) :: s.table[v],
         s.maps[d := Unmapped(n) + s.maps[d][n..]])
  }

  ghost predicate FreeRange(s: Irqs, d: nat, h: nat, nr: nat) {
    && d < |s.maps| && h + nr <= |s.maps[d]|
    && forall k :: h <= k < h + nr ==> s.maps[d][k] == NONE
  }

  /** What the lookup of (d, h) yields: the entry of the map, provided that the
      descriptor there names (d, h). */
  function Find(s: Irqs, d: nat, h: nat): int
    requires d < |s.maps| && h < |s.maps[d]|
  {
    var v := s.maps[d][h];
    if v >= 0 && v in s.table && s.table[v].hwirq == h && s.table[v].domain == d then s.table[v].dataIrq else NONE
  }

  lemma AllocatedInv(s: Irqs, d: nat, h: nat, virq: nat, nr: nat)
    requires IrqInv(s) && FreeRange(s, d, h, nr) && Fits(s.bits, virq, nr)
    ensures IrqInv(Allocated(s, d, h, virq, nr))
  {
    hide Entered, Chosen;
    var r := Allocated(s, d, h, virq, nr);
    forall v | v in r.table ensures Backed(r, v) {
      if !Within(v, virq, nr) {
        assert Backed(s, v);
      }
    }
    forall d': nat, h': nat | d' < |r.maps| && h' < |r.maps[d']| ensures Mapped(r, d', h') {
      assert Mapped(s, d', h');
    }
  }

  lemma FreedInv(s: Irqs, d: nat, n: nat)
    requires IrqInv(s) && d < |s.maps| && n <= |s.maps[d]|
    ensures IrqInv(Freed(s, d, n))
  {
    var r := Freed(s, d, n);
    forall v | v in r.table ensures Backed(r, v) {
      assert Backed(s, v);
    }
    forall d': nat, h': nat | d' < |r.maps| && h' < |r.maps[d']| ensures Mapped(r, d', h') {
      assert Mapped(s, d', h');
    }
  }

  lemma AddedInv(s: Irqs, size: nat)
    requires IrqInv(s)
    ensures IrqInv(AddedDomain(s, size))
  {
    var r := AddedDomain(s, size);
    forall v | v in r.table ensures Backed(r, v) {
      assert Backed(s, v);
    }
    forall d': nat, h': nat | d' < |r.maps| && h' < |r.maps[d']| ensures Mapped(r, d', h') {
      assert d' < |s.maps| ==> Mapped(s, d', h');
    }
  }

  /** In an agreeing state the cross-checks of the lookup never fail. */
  lemma FindIsMap(s: Irqs, d: nat, h: nat)
    requires IrqInv(s) && d < |s.maps| && h < |s.maps[d]|
    ensures Find(s, d, h) == s.maps[d][h]
  {
    assert Mapped(s, d, h);
    assert s.maps[d][h] in s.table ==> Backed(s, s.maps[d][h]);
  }

  /** (domain, hardware number) to virtual number is a bijection onto the marked
      numbers: lookup yields v exactly when v is marked and its descriptor names
      (d, h), and two mappings that share a number are the same. */
  lemma MappingIsBijection(s: Irqs, d: nat, h: nat, v: nat, d': nat, h': nat)
    requires IrqInv(s) && d < |s.maps| && h < |s.maps[d]| && d' < |s.maps| && h' < |s.maps[d']|
    ensures Find(s, d, h) == v <==> v < DESC_MAX && s.bits[v] && s.table[v].domain == d && s.table[v].hwirq == h
    ensures Find(s, d, h) == Find(s, d', h') != NONE ==> d == d' && h == h'
  {
    FindIsMap(s, d, h);
    FindIsMap(s, d', h');
    assert Mapped(s, d, h) && Mapped(s, d', h');
    assert v in s.table ==> Backed(s, v);
  }

  // ------------------------------------------------------------------ runs

  datatype Op =
    | NewDomain(size: nat)
    | Alloc(domain: nat, hwirq: nat, base: int, nr: nat)
    | Map(domain: nat, hwirq: nat)
    | Release(domain: nat)

  function Start(base: int): nat {
    if base >= 0 then base else 0
  }

  /** The search for `nr` numbers from `base` succeeds. */
  ghost predicate Available(s: Irqs, base: int, nr: nat) {
    && Usable(s.bits) && 0 < nr < 0x8000_0000 && base < 0x8000_0000
    && Chosen(s.bits, nr, Start(base)) != MORE
  }

  /** Allocation is asked only for hardware numbers that are not mapped, and a
      search is made only where it succeeds. */
  ghost predicate Enabled(s: Irqs, op: Op) {
    match op
    case NewDomain(_) => true
    case Alloc(d, h, base, nr) => FreeRange(s, d, h, nr) && Available(s, base, nr)
    case Map(d, h) => d < |s.maps| && h < |s.maps[d]| && (Find(s, d, h) == NONE ==> Available(s, -1, 1))
    case Release(d) => d < |s.maps|
  }

  ghost function Step(s: Irqs, op: Op): (t: Irqs)
    requires IrqInv(s) && Enabled(s, op)
    ensures IrqInv(t)
  {
    match op
    case NewDomain(size) => AddedInv(s, size); AddedDomain(s, size)
    case Alloc(d, h, base, nr) => Given(s, d, h, base, nr)
    case Map(d, h) =>
      FindIsMap(s, d, h);
      if Find(s, d, h) >= 0 then s else Given(s, d, h, -1, 1)
    case Release(d) => FreedInv(s, d, |s.maps[d]|); Freed(s, d, |s.maps[d]|)
  }

  ghost function Given(s: Irqs, d: nat, h: nat, base: int, nr: nat): (t: Irqs)
    requires IrqInv(s) && FreeRange(s, d, h, nr) && Available(s, base, nr)
    ensures IrqInv(t)
  {
    ChosenFits(s.bits, nr, Start(base));
    var v := Chosen(s.bits, nr, Start(base));
    AllocatedInv(s, d, h, v, nr);
    Allocated(s, d, h, v, nr)
  }

  // ------------------------------------------------------- a search that fails

  /** The search's error code in an unsigned number. */
  const STRAY: nat := RadixPaths.WORD + MORE

  /** Descriptors made for virq, virq + 1, ... in 32 bits; a number that has one
      keeps it. */
  function Made(table: map<int, Desc>, virq: nat, nr: nat): map<int, Desc> {
    if nr == 0 then table
    else
      var was, v := Made(table, virq, nr - 1), (virq + nr - 1) % RadixPaths.WORD;
      if v in was then was else was[v := Desc(v, 0, NONE, 0)]
  }

  /** What allocation does whatever it is asked: when the search fails, it still
      makes descriptors, for its error code and the numbers behind that. */
  ghost function After(s: Irqs, d: nat, h: nat, base: int, nr: nat): Irqs
    requires IrqInv(s) && d < |s.maps| && h + nr <= |s.maps[d]| && nr > 0
  {
    ChosenFits(s.bits, nr, Start(base));
    var v := Chosen(s.bits, nr, Start(base));
    if v == MORE then s.(table := Made(s.table, STRAY, nr)) else Allocated(s, d, h, v, nr)
  }

  /** What looking up or making the mapping of (d, h) does. */
  ghost function Looked(s: Irqs, d: nat, h: nat): Irqs
    requires IrqInv(s) && d < |s.maps| && h < |s.maps[d]|
  {
    if s.maps[d][h] == NONE then After(s, d, h, -1, 1) else s
  }

  /** The number that looking up or making a mapping yields, or the error code. */
  ghost function Yielded(s: Irqs, d: nat, h: nat): int
    requires IrqInv(s) && d < |s.maps| && h < |s.maps[d]|
  {
    if s.maps[d][h] == NONE then Chosen(s.bits, 1, 0) else s.maps[d][h]
  }

  /** The hardware number exists, and a search made for it comes to an end. */
  ghost predicate Mappable(s: Irqs, d: nat, h: nat) {
    d < |s.maps| && h < |s.maps[d]| && (s.maps[d][h] == NONE ==> Halts(s.bits, 1, 0))
  }

  lemma {:induction false} MadeKeeps(table: map<int, Desc>, virq: nat, nr: nat, v: int)
    ensures v in table ==> v in Made(table, virq, nr)
    ensures nr > 0 && v == virq % RadixPaths.WORD ==> v in Made(table, virq, nr)
  {
    if nr > 0 {
      MadeKeeps(table, virq, nr - 1, v);
    }
  }

  /** A mapping that is overwritten leaves its number's descriptor behind. */
  lemma OverwritingBreaks(s: Irqs, d: nat, h: nat, virq: nat, nr: nat, k: nat)
    requires IrqInv(s) && d < |s.maps| && h <= k < h + nr <= |s.maps[d]| && s.maps[d][k] != NONE
    requires Fits(s.bits, virq, nr)
    ensures !IrqInv(Allocated(s, d, h, virq, nr))
  {
    hide Entered;
    var r, v := Allocated(s, d, h, virq, nr), s.maps[d][k];
    assert Mapped(s, d, k) && Backed(s, v);
    assert !Within(v, virq, nr) && v in r.table && r.table[v] == s.table[v];
    assert r.maps[d][k] == virq + (k - h);
    assert !Backed(r, v);
  }

  /** Allocation keeps the three structures in agreement if and only if none of
      the hardware numbers is mapped and the search succeeds. */
  lemma AllocKeepsIff(s: Irqs, d: nat, h: nat, base: int, nr: nat)
    requires IrqInv(s) && d < |s.maps| && h + nr <= |s.maps[d]| && nr > 0
    ensures IrqInv(After(s, d, h, base, nr)) <==>
      FreeRange(s, d, h, nr) && Chosen(s.bits, nr, Start(base)) != MORE
  {
    hide Allocated, Chosen, Made;
    var v := Chosen(s.bits, nr, Start(base));
    ChosenFits(s.bits, nr, Start(base));
    if v == MORE {
      MadeKeeps(s.table, STRAY, nr, STRAY);
      assert STRAY in After(s, d, h, base, nr).table;
    } else if FreeRange(s, d, h, nr) {
      AllocatedInv(s, d, h, v, nr);
    } else {
      var k :| h <= k < h + nr && s.maps[d][k] != NONE;
      OverwritingBreaks(s, d, h, v, nr, k);
    }
  }

  /** Where runs go on, allocation and mapping are the steps of the runs, and the
      number that mapping yields is found afterwards. */
  lemma AfterIsStep(s: Irqs, d: nat, h: nat, base: int, nr: nat)
    requires IrqInv(s) && d < |s.maps| && h + nr <= |s.maps[d]| && 0 < nr && h < |s.maps[d]|
    ensures Enabled(s, Alloc(d, h, base, nr)) ==> After(s, d, h, base, nr) == Step(s, Alloc(d, h, base, nr))
    ensures Enabled(s, Map(d, h)) ==> Looked(s, d, h) == Step(s, Map(d, h))
  {
    hide IrqInv, Chosen, Allocated;
    FindIsMap(s, d, h);
    EntryOrNone(s, d, h);
  }

  /** The number that allocation yields for the first hardware number. */
  lemma AfterFinds(s: Irqs, d: nat, h: nat, base: int, nr: nat)
    requires IrqInv(s) && Enabled(s, Alloc(d, h, base, nr))
    ensures Find(Step(s, Alloc(d, h, base, nr)), d, h) == Chosen(s.bits, nr, Start(base))
  {
    hide IrqInv, Entered, Chosen;
    ChosenFits(s.bits, nr, Start(base));
    FindIsMap(Step(s, Alloc(d, h, base, nr)), d, h);
  }

  /** The number that looking up or making a mapping yields is the one found
      afterwards; a mapping that was there is returned with nothing changed. */
  lemma YieldedFound(s: Irqs, d: nat, h: nat)
    requires IrqInv(s) && Mappable(s, d, h)
    ensures |Looked(s, d, h).maps| == |s.maps| && |Looked(s, d, h).maps[d]| == |s.maps[d]|
    ensures Yielded(s, d, h) != MORE ==> Find(Looked(s, d, h), d, h) == Yielded(s, d, h) >= 0
    ensures Find(s, d, h) != NONE ==> Yielded(s, d, h) == Find(s, d, h) && Looked(s, d, h) == s
  {
    hide IrqInv, Chosen, Entered;
    FindIsMap(s, d, h);
    EntryOrNone(s, d, h);
    if s.maps[d][h] == NONE {
      ChosenOrError(s);
      AllocKeepsIff(s, d, h, -1, 1);
      if Yielded(s, d, h) != MORE {
        FindIsMap(Looked(s, d, h), d, h);
      }
    }
  }

  lemma ChosenOrError(s: Irqs)
    requires IrqInv(s)
    ensures Chosen(s.bits, 1, 0) == MORE || Chosen(s.bits, 1, 0) >= 0
  {
    ChosenFits(s.bits, 1, 0);
  }

  /** Which numbers a failing search makes descriptors for: its error code and those
      behind, in 32 bits; what was there is kept. */
  lemma {:induction false} MadeIs(table: map<int, Desc>, virq: nat, nr: nat, v: int)
    requires nr <= RadixPaths.WORD
    ensures v in Made(table, virq, nr) <==>
      v in table || (0 <= v < RadixPaths.WORD && (v - virq) % RadixPaths.WORD < nr)
    ensures v in Made(table, virq, nr) ==>
      Made(table, virq, nr)[v] == if v in table then table[v] else Desc(v, 0, NONE, 0)
  {
    if nr > 0 {
      MadeIs(table, virq, nr - 1, v);
      if 0 <= v < RadixPaths.WORD {
        LastInWord(virq, nr, v);
      }
    }
  }

  /** A failing search leaves the bitmap and the maps alone, and every descriptor;
      it makes those descriptors, for its error code and on. */
  lemma FailureIs(s: Irqs, d: nat, h: nat, base: int, nr: nat, v: int)
    requires IrqInv(s) && d < |s.maps| && h + nr <= |s.maps[d]| && 0 < nr <= RadixPaths.WORD
    requires Chosen(s.bits, nr, Start(base)) == MORE
    ensures var t := After(s, d, h, base, nr);
      && t.bits == s.bits && t.maps == s.maps
      && (v in t.table <==> v in s.table || (0 <= v < RadixPaths.WORD && (v - STRAY) % RadixPaths.WORD < nr))
      && (v in t.table ==> t.table[v] == if v in s.table then s.table[v] else Desc(v, 0, NONE, 0))
  {
    hide Made, Chosen, IrqInv;
    MadeIs(s.table, STRAY, nr, v);
  }

  lemma LastInWord(virq: nat, nr: nat, v: int)
    requires 0 < nr <= RadixPaths.WORD && 0 <= v < RadixPaths.WORD
    ensures v == (virq + nr - 1) % RadixPaths.WORD <==> (v - virq) % RadixPaths.WORD == nr - 1
  {}

  /** Asking a fresh allocator for 1024 numbers makes a descriptor for number
      4294967286, which the bitmap does not know. */
  lemma FailedSearchStrays()
    ensures var s := AddedDomain(Initial(), DESC_MAX);
      && IrqInv(s) && FreeRange(s, 0, 0, DESC_MAX) && Chosen(s.bits, DESC_MAX, 0) == MORE
      && 4294967286 in After(s, 0, 0, -1, DESC_MAX).table && !IrqInv(After(s, 0, 0, -1, DESC_MAX))
  {
    hide Made;
    var s := AddedDomain(Initial(), DESC_MAX);
    InitialInv();
    AddedInv(Initial(), DESC_MAX);
    AllocKeepsIff(s, 0, 0, -1, DESC_MAX);
    MadeKeeps(s.table, STRAY, DESC_MAX, STRAY);
  }

  // ------------------------------------------------------------ legal runs

  ghost predicate Legal(s: Irqs, ops: seq<Op>)
    requires IrqInv(s)
    decreases |ops|
  {
    ops == [] || (Enabled(s, ops[0]) && Legal(Step(s, ops[0]), ops[1..]))
  }

  /** The state after a legal run; every state of it agrees. */
  ghost function Run(s: Irqs, ops: seq<Op>): (t: Irqs)
    requires IrqInv(s) && Legal(s, ops)
    ensures IrqInv(t)
    decreases |ops|
  {
    if ops == [] then s else Run(Step(s, ops[0]), ops[1..])
  }

  lemma InitialInv()
    ensures IrqInv(Initial())
  {}

  /** One step leaves every mapping alone that is not of a released domain: no
      mapping is moved, stolen or lost. */
  lemma StepKeepsMapping(s: Irqs, op: Op, d: nat, h: nat)
    requires IrqInv(s) && Enabled(s, op) && d < |s.maps| && h < |s.maps[d]|
    requires Find(s, d, h) != NONE && op != Release(d)
    ensures var t := Step(s, op); d < |t.maps| && h < |t.maps[d]| && Find(t, d, h) == Find(s, d, h)
  {
    hide Entered, IrqInv, Chosen;
    FindIsMap(s, d, h);
    var t := Step(s, op);
    assert d < |t.maps| && h < |t.maps[d]| && t.maps[d][h] == s.maps[d][h];
    FindIsMap(t, d, h);
  }

  /** A mapping made at any point of a run is found, with the same number, for
      as long as its domain is not released. */
  lemma {:induction false} RunKeepsMapping(s: Irqs, ops: seq<Op>, d: nat, h: nat)
    requires IrqInv(s) && Legal(s, ops) && d < |s.maps| && h < |s.maps[d]|
    requires Find(s, d, h) != NONE && Release(d) !in ops
    ensures var t := Run(s, ops); d < |t.maps| && h < |t.maps[d]| && Find(t, d, h) == Find(s, d, h)
    decreases |ops|
  {
    if ops != [] {
      StepKeepsMapping(s, ops[0], d, h);
      RunKeepsMapping(Step(s, ops[0]), ops[1..], d, h);
    }
  }

  /** Lookup after mapping: allocation maps the whole range to consecutive
      numbers that no one held before, and mapping one number always leaves it
      mapped. */
  lemma {:induction false} StepMaps(s: Irqs, op: Op, k: nat)
    requires IrqInv(s) && Enabled(s, op)
    requires op.Alloc? ==> k < op.nr
    ensures op.Alloc? ==>
      var v := Find(Step(s, op), op.domain, op.hwirq + k);
      v == Find(Step(s, op), op.domain, op.hwirq) + k && v !in s.table && 0 <= v < DESC_MAX
    ensures op.Map? ==> Find(Step(s, op), op.domain, op.hwirq) >= 0
  {
    hide IrqInv, Entered, Chosen, Filled;
    var t := Step(s, op);
    if op.Alloc? {
      NumbersFree(s, op.base, op.nr);
      FindIsMap(t, op.domain, op.hwirq);
      FindIsMap(t, op.domain, op.hwirq + k);
    } else if op.Map? {
      FindIsMap(s, op.domain, op.hwirq);
      FindIsMap(t, op.domain, op.hwirq);
      EntryOrNone(s, op.domain, op.hwirq);
      if Find(s, op.domain, op.hwirq) < 0 {
        NumbersFree(s, -1, 1);
      }
    }
  }

  lemma NumbersFree(s: Irqs, base: int, nr: nat)
    requires IrqInv(s) && Available(s, base, nr)
    ensures var v := Chosen(s.bits, nr, Start(base));
      0 <= v && v + nr <= DESC_MAX && forall u :: Within(u, v, nr) ==> u !in s.table
  {
    hide Chosen;
    ChosenFits(s.bits, nr, Start(base));
  }

  lemma EntryOrNone(s: Irqs, d: nat, h: nat)
    requires IrqInv(s) && d < |s.maps| && h < |s.maps[d]|
    ensures s.maps[d][h] >= NONE
  {
    assert Mapped(s, d, h);
  }

  // ------------------------------------------- what the steps do, exactly

  /** The lookups determine the state. */
  lemma FindsDetermine(s: Irqs, t: Irqs)
    requires IrqInv(s) && IrqInv(t) && |s.maps| == |t.maps|
    requires forall d :: 0 <= d < |s.maps| ==> |s.maps[d]| == |t.maps[d]|
    requires forall d: nat, h: nat :: d < |s.maps| && h < |s.maps[d]| ==> Find(s, d, h) == Find(t, d, h)
    ensures s == t
  {
    forall d: nat | d < |s.maps| ensures s.maps[d] == t.maps[d] {
      forall h: nat | h < |s.maps[d]| ensures s.maps[d][h] == t.maps[d][h] {
        FindIsMap(s, d, h);
        FindIsMap(t, d, h);
      }
    }
    assert s.maps == t.maps;
    forall v ensures v in s.table ==> v in t.table && s.table[v] == t.table[v] {
      SameEntry(s, t, v);
    }
    forall v ensures v in t.table ==> v in s.table {
      SameEntry(t, s, v);
    }
    assert s.table == t.table;
    assert s.bits == t.bits;
  }

  lemma SameEntry(s: Irqs, t: Irqs, v: int)
    requires IrqInv(s) && IrqInv(t) && s.maps == t.maps
    ensures v in s.table ==> v in t.table && s.table[v] == t.table[v]
  {
    if v in s.table {
      var c := s.table[v];
      assert Backed(s, v) && Mapped(t, c.domain, c.hwirq);
      assert v in t.table && Backed(t, v);
    }
  }

  /** A new domain has the size asked for and maps nothing; the others stay. */
  lemma NewDomainFinds(s: Irqs, size: nat, d: nat, h: nat)
    requires IrqInv(s)
    ensures var t := Step(s, NewDomain(size));
      && |t.maps| == |s.maps| + 1 && |t.maps[|s.maps|]| == size
      && (d < |s.maps| ==> |t.maps[d]| == |s.maps[d]|)
      && (d < |s.maps| && h < |s.maps[d]| ==> Find(t, d, h) == Find(s, d, h))
      && (h < size ==> Find(t, |s.maps|, h) == NONE)
  {}

  /** Allocation maps its range to the chosen numbers, and changes no other lookup. */
  lemma AllocFinds(s: Irqs, op: Op, d: nat, h: nat)
    requires IrqInv(s) && op.Alloc? && Enabled(s, op) && d < |s.maps| && h < |s.maps[d]|
    ensures var t := Step(s, op);
      && |t.maps| == |s.maps| && |t.maps[d]| == |s.maps[d]|
      && Find(t, d, h) ==
           if d == op.domain && op.hwirq <= h < op.hwirq + op.nr then
             Chosen(s.bits, op.nr, Start(op.base)) + (h - op.hwirq)
           else Find(s, d, h)
  {
    hide IrqInv, Entered, Chosen, Filled;
    FindIsMap(s, d, h);
    NumbersFree(s, op.base, op.nr);
    FindIsMap(Step(s, op), d, h);
  }

  /** Releasing a domain unmaps all of it, and changes no other lookup. */
  lemma ReleaseFinds(s: Irqs, r: nat, d: nat, h: nat)
    requires IrqInv(s) && r < |s.maps| && d < |s.maps| && h < |s.maps[d]|
    ensures var t := Step(s, Release(r));
      && |t.maps| == |s.maps| && |t.maps[d]| == |s.maps[d]|
      && Find(t, d, h) == if d == r then NONE else Find(s, d, h)
  {
    hide IrqInv;
    FindIsMap(s, d, h);
    FindIsMap(Step(s, Release(r)), d, h);
  }

  lemma FreedUndoesAllocated(s: Irqs, d: nat, h: nat, v: nat, nr: nat)
    requires IrqInv(s) && FreeRange(s, d, h, nr) && Fits(s.bits, v, nr)
    requires forall k :: 0 <= k < |s.maps[d]| ==> s.maps[d][k] == NONE
    ensures Freed(Allocated(s, d, h, v, nr), d, |s.maps[d]|) == s
  {
    hide Entered;
    var a := Allocated(s, d, h, v, nr);
    var t := Freed(a, d, |s.maps[d]|);
    forall u | u in s.table ensures s.table[u].domain != d {
      assert Backed(s, u);
    }
    forall u | u in a.table ensures Gone(a, d, |s.maps[d]|, u) <==> Within(u, v, nr) {}
    assert t.bits == s.bits;
    assert forall u :: Within(u, v, nr) ==> u !in s.table;
    assert forall u :: u in t.table <==> u in s.table;
    assert t.table == s.table;
    assert t.maps[d] == s.maps[d];
    assert t.maps == s.maps;
  }

  /** Allocating for a domain without mappings and releasing it gives back every
      number: the whole state is as before. */
  lemma AllocThenRelease(s: Irqs, d: nat, h: nat, base: int, nr: nat)
    requires IrqInv(s) && Enabled(s, Alloc(d, h, base, nr))
    requires forall k :: 0 <= k < |s.maps[d]| ==> s.maps[d][k] == NONE
    ensures Step(Step(s, Alloc(d, h, base, nr)), Release(d)) == s
  {
    hide IrqInv, Freed, Entered;
    ChosenFits(s.bits, nr, Start(base));
    FreedUndoesAllocated(s, d, h, Chosen(s.bits, nr, Start(base)), nr);
  }
}
