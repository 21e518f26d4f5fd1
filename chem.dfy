/** The entities both pages share: molecules (donors and acceptors live in
    separate lists with the same shape), complexes pairing a donor with an
    acceptor, lookup of a molecule by id, and the stable ranking of
    complexes by descending EFI score. */
module Chem {
  import opened SeqUtil

  /** The numeric descriptors of a molecule. Only displayed, so carried as they come. */
  datatype Descriptors = Descriptors(homo: real, lumo: real, gap: real, energy: real, dipole: real, volume: real)

  /** The descriptors of a complex (no volume). */
  datatype ComplexDescriptors = ComplexDescriptors(homo: real, lumo: real, gap: real, energy: real, dipole: real)

  datatype Molecule = Molecule(id: string, name: string, formula: string, mw: real, descriptors: Descriptors)

  datatype Complex = Complex(hbdId: string, hbaId: string, ratio: string, efiScore: real,
                             interactionEnergy: real, complexDescriptors: ComplexDescriptors)

  /** Which half of a pair is the anchor that was selected: the donor or the acceptor. */
  datatype Side = Donor | Acceptor

  /** The id of the complex's anchor molecule on the given side. */
  function AnchorId(c: Complex, side: Side): string {
    match side
    case Donor => c.hbdId
    case Acceptor => c.hbaId
  }

  /** The id of the complex's other molecule, the partner of the anchor. */
  function PartnerId(c: Complex, side: Side): string {
    match side
    case Donor => c.hbaId
    case Acceptor => c.hbdId
  }

  function IdIs(id: string): Molecule -> bool {
    (m: Molecule) => m.id == id
  }

  /** `list.find(m => m.id === id)`. */
  function Find(list: seq<Molecule>, id: string): (r: Option<Molecule>)
    ensures r.None? <==> forall i :: 0 <= i < |list| ==> list[i].id != id
    ensures r.Some? ==> r.value in list && r.value.id == id
    ensures r.Some? ==> exists i :: 0 <= i < |list| && list[i] == r.value && forall j :: 0 <= j < i ==> list[j].id != id
  {
    First(list, IdIs(id))
  }

  // ---------------------------------------------------------------------------
  // Ranking by EFI score: `sort((a, b) => b.efi_score - a.efi_score)`, which
  // is a stable sort into non-increasing score order.

  ghost predicate SortedByEfi(s: seq<Complex>) {
    forall i, j :: 0 <= i < j < |s| ==> s[i].efiScore >= s[j].efiScore
  }

  function EfiIs(e: real): Complex -> bool {
    (c: Complex) => c.efiScore == e
  }

  /** Inserts `x` into `t` from the back: `x` moves left past the trailing
      elements that score strictly lower, so it lands after its ties. */
  function Insert(t: seq<Complex>, x: Complex): (r: seq<Complex>)
    ensures |r| == |t| + 1
  {
    if t == [] || t[|t| - 1].efiScore >= x.efiScore then t + [x]
    else
      var t' := t[..|t| - 1];
      assert t == t' + [t[|t| - 1]];
      Insert(t', x) + [t[|t| - 1]]
  }

  /** Insertion adds `x` and loses nothing. */
  lemma {:induction false} InsertMultiset(t: seq<Complex>, x: Complex)
    ensures multiset(Insert(t, x)) == multiset(t) + multiset{x}
    decreases |t|
  {
    if t != [] && t[|t| - 1].efiScore < x.efiScore {
      var t' := t[..|t| - 1];
      assert t == t' + [t[|t| - 1]];
      InsertMultiset(t', x);
    }
  }

  lemma {:induction false} InsertKeepsSorted(t: seq<Complex>, x: Complex)
    requires SortedByEfi(t)
    ensures SortedByEfi(Insert(t, x))
    decreases |t|
  {
    if t != [] && t[|t| - 1].efiScore < x.efiScore {
      var t', l := t[..|t| - 1], t[|t| - 1];
      InsertKeepsSorted(t', x);
      InsertMultiset(t', x);
      var r' := Insert(t', x);
      forall i | 0 <= i < |r'| ensures r'[i].efiScore >= l.efiScore {
        assert r'[i] in multiset(r');
        assert r'[i] in multiset(t') || r'[i] == x;
      }
    }
  }

  /** The complexes of `s` in non-increasing score order, ties kept in the order of `s`. */
  function SortByEfi(s: seq<Complex>): (r: seq<Complex>)
    ensures |r| == |s|
  {
    if s == [] then []
    else Insert(SortByEfi(s[..|s| - 1]), s[|s| - 1])
  }

  /** Sorting keeps every complex, as often as it occurred. */
  lemma {:induction false} SortByEfiPermutes(s: seq<Complex>)
    ensures multiset(SortByEfi(s)) == multiset(s)
    decreases |s|
  {
    if s != [] {
      var s' := s[..|s| - 1];
      assert s == s' + [s[|s| - 1]];
      SortByEfiPermutes(s');
      InsertMultiset(SortByEfi(s'), s[|s| - 1]);
    }
  }

  /** Sorting orders by non-increasing score. */
  lemma {:induction false} SortByEfiSorts(s: seq<Complex>)
    ensures SortedByEfi(SortByEfi(s))
    decreases |s|
  {
    if s != [] {
      SortByEfiSorts(s[..|s| - 1]);
      InsertKeepsSorted(SortByEfi(s[..|s| - 1]), s[|s| - 1]);
    }
  }

  /** Among the complexes of one score, insertion appends `x` after the ties already there. */
  lemma {:induction false} InsertTies(t: seq<Complex>, x: Complex, e: real)
    ensures Filter(Insert(t, x), EfiIs(e)) == Filter(t, EfiIs(e)) + (if x.efiScore == e then [x] else [])
    decreases |t|
  {
    if t == [] || t[|t| - 1].efiScore >= x.efiScore {
      FilterSnoc(t, x, EfiIs(e));
    } else {
      var t', l := t[..|t| - 1], t[|t| - 1];
      assert t == t' + [l];
      assert Insert(t, x) == Insert(t', x) + [l];
      InsertTies(t', x, e);
      FilterSnoc(Insert(t', x), l, EfiIs(e));
      FilterSnoc(t', l, EfiIs(e));
      assert l.efiScore != x.efiScore;
    }
  }

  /** Stability: for every score, the complexes with that score keep their relative order. */
  lemma {:induction false} SortByEfiStable(s: seq<Complex>, e: real)
    ensures Filter(SortByEfi(s), EfiIs(e)) == Filter(s, EfiIs(e))
    decreases |s|
  {
    if s != [] {
      var s', x := s[..|s| - 1], s[|s| - 1];
      SortByEfiStable(s', e);
      InsertTies(SortByEfi(s'), x, e);
      FilterSnoc(s', x, EfiIs(e));
      assert s == s' + [x];
    }
  }

  /** A list that is already in order is left as it is, so sorting twice changes nothing. */
  lemma {:induction false} SortByEfiOfSorted(s: seq<Complex>)
    requires SortedByEfi(s)
    ensures SortByEfi(s) == s
    decreases |s|
  {
    if s != [] {
      var s', x := s[..|s| - 1], s[|s| - 1];
      assert SortedByEfi(s') by {
        forall i, j | 0 <= i < j < |s'| ensures s'[i].efiScore >= s'[j].efiScore {
          assert s'[i] == s[i] && s'[j] == s[j];
        }
      }
      SortByEfiOfSorted(s');
      assert SortByEfi(s) == Insert(s', x);
      assert s' != [] ==> s'[|s'| - 1] == s[|s| - 2];
      assert Insert(s', x) == s' + [x];
      assert s' + [x] == s;
    }
  }

  lemma SortByEfiIdempotent(s: seq<Complex>)
    ensures SortByEfi(SortByEfi(s)) == SortByEfi(s)
  {
    SortByEfiSorts(s);
    SortByEfiOfSorted(SortByEfi(s));
  }

  /** Keeping only some complexes of a ranked list leaves it ranked. */
  lemma {:induction false} FilterKeepsSorted(s: seq<Complex>, p: Complex -> bool)
    requires SortedByEfi(s)
    ensures SortedByEfi(Filter(s, p))
    decreases |s|
  {
    if s != [] {
      var s', l := s[..|s| - 1], s[|s| - 1];
      assert SortedByEfi(s');
      FilterKeepsSorted(s', p);
      var f := Filter(s', p);
      forall i | 0 <= i < |f| ensures f[i].efiScore >= l.efiScore {
        assert f[i] in s';
      }
    }
  }

  /** When the last element scores lower than the new one, the insertion
      happens in front of it. */
  lemma InsertPastLower(t: seq<Complex>, x: Complex)
    requires t != [] && t[|t| - 1].efiScore < x.efiScore
    ensures Insert(t, x) == Insert(t[..|t| - 1], x) + [t[|t| - 1]]
  {
  }

  lemma {:induction false} InsertAt(t: seq<Complex>, x: Complex, j: nat)
    requires j <= |t|
    requires j == 0 || t[j - 1].efiScore >= x.efiScore
    requires forall k :: j <= k < |t| ==> t[k].efiScore < x.efiScore
    ensures Insert(t, x) == t[..j] + [x] + t[j..]
    decreases |t|
  {
    if j == |t| {
      assert t[..j] == t && t[j..] == [];
    } else {
      var t', l := t[..|t| - 1], t[|t| - 1];
      InsertAt(t', x, j);
      InsertPastLower(t, x);
      assert t'[..j] == t[..j];
      assert t'[j..] + [l] == t[j..];
    }
  }
}
