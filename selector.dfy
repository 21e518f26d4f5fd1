/** The molecular selector: it turns the three keyed data files into donor,
    acceptor and complex lists, holds the user's donor and acceptor picks,
    and derives from them the ranked list of compatible partners and the
    complex of a fully chosen pair. */
module Selector {
  import opened SeqUtil
  import opened Chem

  // ---------------------------------------------------------------------------
  // Record transforms. A data file is a JSON object; its entries, in
  // `Object.entries` order, are the (key, record) pairs below.

  /** The fields of a donor or acceptor record that the selector reads. */
  datatype RawMolecule = RawMolecule(homo: real, lumo: real, gap: real, energy: real, dipole: real)

  /** The fields of a complex record that the selector reads. */
  datatype RawComplex = RawComplex(hbd: string, hba: string, efiScore: real, interactionEnergy: real,
                                   homo: real, lumo: real, gap: real, energy: real, dipole: real)

  /** `key.replace(/_/g, ' ')`. */
  function ReplaceUnderscores(key: string): (name: string)
    ensures |name| == |key|
    ensures '_' !in name
    ensures forall i :: 0 <= i < |key| ==> name[i] == if key[i] == '_' then ' ' else key[i]
  {
    if key == [] then []
    else [if key[0] == '_' then ' ' else key[0]] + ReplaceUnderscores(key[1..])
  }

  /** A key is shown unchanged exactly when it holds no underscore. */
  lemma ReplaceUnderscoresFixed(key: string)
    ensures ReplaceUnderscores(key) == key <==> '_' !in key
  {
    if '_' !in key {
      assert forall i :: 0 <= i < |key| ==> ReplaceUnderscores(key)[i] == key[i];
    }
  }

  /** Replacing a second time changes nothing. */
  lemma ReplaceUnderscoresIdempotent(key: string)
    ensures ReplaceUnderscores(ReplaceUnderscores(key)) == ReplaceUnderscores(key)
  {
    ReplaceUnderscoresFixed(ReplaceUnderscores(key));
  }

  function ToMolecule(key: string, raw: RawMolecule): Molecule {
    Molecule(key, ReplaceUnderscores(key), key, 0.0,
             Descriptors(raw.homo, raw.lumo, raw.gap, raw.energy, raw.dipole, 0.0))
  }

  /** One molecule per entry, in entry order: the key is the id and the
      formula, the name is the key with spaces for underscores, and the
      molecular weight and volume are the placeholder 0. */
  function ToMolecules(entries: seq<(string, RawMolecule)>): (ms: seq<Molecule>)
    ensures |ms| == |entries|
    ensures forall i :: 0 <= i < |entries| ==>
      var (key, raw) := entries[i];
      && ms[i].id == key && ms[i].formula == key
      && ms[i].name == ReplaceUnderscores(key) && |ms[i].name| == |key| && '_' !in ms[i].name
      && ms[i].mw == 0.0 && ms[i].descriptors.volume == 0.0
      && ms[i].descriptors == Descriptors(raw.homo, raw.lumo, raw.gap, raw.energy, raw.dipole, 0.0)
  {
    seq(|entries|, i requires 0 <= i < |entries| => ToMolecule(entries[i].0, entries[i].1))
  }

  function ToComplex(raw: RawComplex): Complex {
    Complex(raw.hbd, raw.hba, "1:1", raw.efiScore, raw.interactionEnergy,
            ComplexDescriptors(raw.homo, raw.lumo, raw.gap, raw.energy, raw.dipole))
  }

  /** One complex per entry, in entry order; the entry's key is not kept,
      the donor and acceptor ids come from the `HBD` and `HBA` fields and
      the ratio is always "1:1". */
  function ToComplexes(entries: seq<(string, RawComplex)>): (cs: seq<Complex>)
    ensures |cs| == |entries|
    ensures forall i :: 0 <= i < |entries| ==>
      var raw := entries[i].1;
      && cs[i].hbdId == raw.hbd && cs[i].hbaId == raw.hba && cs[i].ratio == "1:1"
      && cs[i].efiScore == raw.efiScore && cs[i].interactionEnergy == raw.interactionEnergy
      && cs[i].complexDescriptors == ComplexDescriptors(raw.homo, raw.lumo, raw.gap, raw.energy, raw.dipole)
  {
    seq(|entries|, i requires 0 <= i < |entries| => ToComplex(entries[i].1))
  }

  /** The keys of a JSON object are distinct, so looking a key up in the
      transformed list finds the molecule made from that very entry. */
  lemma FindTransformed(entries: seq<(string, RawMolecule)>, k: nat)
    requires DistinctKeys(entries)
    requires k < |entries|
    ensures Find(ToMolecules(entries), entries[k].0) == Some(ToMolecules(entries)[k])
  {
    var ms := ToMolecules(entries);
    FirstAt(ms, IdIs(entries[k].0), k);
  }

  // ---------------------------------------------------------------------------
  // The compatibility resolver.

  function Matches(side: Side, anchor: string): Complex -> bool {
    (c: Complex) => AnchorId(c, side) == anchor
  }

  function HasPartner(side: Side, partners: seq<Molecule>): Complex -> bool {
    (c: Complex) => Find(partners, PartnerId(c, side)).Some?
  }

  /** A compatible molecule together with the complex it was found through. */
  datatype Candidate = Candidate(complex: Complex, molecule: Molecule)

  function ComplexesOf(cands: seq<Candidate>): seq<Complex> {
    seq(|cands|, i requires 0 <= i < |cands| => cands[i].complex)
  }

  function MoleculesOf(cands: seq<Candidate>): seq<Molecule> {
    seq(|cands|, i requires 0 <= i < |cands| => cands[i].molecule)
  }

  /** `.map(c => partners.find(m => m.id === partnerId(c))).filter(Boolean)`:
      each complex is replaced by its partner molecule and complexes whose
      partner id is unknown are dropped; here each survivor keeps its complex. */
  function Join(ranked: seq<Complex>, side: Side, partners: seq<Molecule>): (r: seq<Candidate>)
    ensures forall k :: 0 <= k < |r| ==> Find(partners, PartnerId(r[k].complex, side)) == Some(r[k].molecule)
    ensures ComplexesOf(r) == Filter(ranked, HasPartner(side, partners))
  {
    if ranked == [] then []
    else
      var found := Find(partners, PartnerId(ranked[|ranked| - 1], side));
      var tail := if found.Some? then [Candidate(ranked[|ranked| - 1], found.value)] else [];
      JoinStep(ranked, side, partners, Join(ranked[..|ranked| - 1], side, partners));
      Join(ranked[..|ranked| - 1], side, partners) + tail
  }

  /** Joining one more complex adds its candidate exactly when its partner is known. */
  lemma JoinStep(ranked: seq<Complex>, side: Side, partners: seq<Molecule>, j: seq<Candidate>)
    requires ranked != []
    requires forall k :: 0 <= k < |j| ==> Find(partners, PartnerId(j[k].complex, side)) == Some(j[k].molecule)
    requires ComplexesOf(j) == Filter(ranked[..|ranked| - 1], HasPartner(side, partners))
    ensures var c := ranked[|ranked| - 1];
      var found := Find(partners, PartnerId(c, side));
      var r := j + (if found.Some? then [Candidate(c, found.value)] else []);
      && (forall k :: 0 <= k < |r| ==> Find(partners, PartnerId(r[k].complex, side)) == Some(r[k].molecule))
      && ComplexesOf(r) == Filter(ranked, HasPartner(side, partners))
  {
    var c := ranked[|ranked| - 1];
    var found := Find(partners, PartnerId(c, side));
    var tail := if found.Some? then [Candidate(c, found.value)] else [];
    assert ComplexesOf(j + tail) == ComplexesOf(j) + ComplexesOf(tail);
    assert ComplexesOf(tail) == if HasPartner(side, partners)(c) then [c] else [];
  }

  /** The partners of `anchor`, each with its complex, best EFI score first. */
  function Ranked(cs: seq<Complex>, side: Side, anchor: string, partners: seq<Molecule>): (r: seq<Candidate>)
    ensures ComplexesOf(r) == Filter(SortByEfi(Filter(cs, Matches(side, anchor))), HasPartner(side, partners))
    ensures forall k :: 0 <= k < |r| ==> Find(partners, PartnerId(r[k].complex, side)) == Some(r[k].molecule)
  {
    Join(SortByEfi(Filter(cs, Matches(side, anchor))), side, partners)
  }

  /** The compatible list for a picked donor (or, mirrored, a picked
      acceptor): filter the complexes by the anchor, sort them by descending EFI score, and map
      each to its partner molecule, dropping unknown ids. */
  function CompatiblePartners(cs: seq<Complex>, side: Side, anchor: string, partners: seq<Molecule>): (ms: seq<Molecule>)
    ensures |ms| == |Ranked(cs, side, anchor, partners)|
    ensures forall k :: 0 <= k < |ms| ==>
      ms[k] in partners && ms[k].id == PartnerId(Ranked(cs, side, anchor, partners)[k].complex, side)
  {
    MoleculesOf(Ranked(cs, side, anchor, partners))
  }

  /** Every compatible molecule comes from a complex of `cs` that has the
      anchor and names that molecule's id as partner; the molecule is the
      first with that id in `partners`. */
  lemma RankedOrigins(cs: seq<Complex>, side: Side, anchor: string, partners: seq<Molecule>)
    ensures forall k :: 0 <= k < |Ranked(cs, side, anchor, partners)| ==>
      var cand := Ranked(cs, side, anchor, partners)[k];
      && cand.complex in cs && AnchorId(cand.complex, side) == anchor
      && cand.molecule in partners && cand.molecule.id == PartnerId(cand.complex, side)
      && Find(partners, PartnerId(cand.complex, side)) == Some(cand.molecule)
  {
    var m := Filter(cs, Matches(side, anchor));
    var r := Ranked(cs, side, anchor, partners);
    var sorted := SortByEfi(m);
    SortByEfiPermutes(m);
    forall k | 0 <= k < |r|
      ensures r[k].complex in cs && AnchorId(r[k].complex, side) == anchor
    {
      assert ComplexesOf(r)[k] == r[k].complex;
      assert r[k].complex in sorted;
      assert r[k].complex in multiset(sorted);
      assert r[k].complex in m;
    }
  }

  /** Ranking: the complexes the compatible molecules came from are in
      non-increasing EFI order. */
  lemma RankedByEfi(cs: seq<Complex>, side: Side, anchor: string, partners: seq<Molecule>)
    ensures SortedByEfi(ComplexesOf(Ranked(cs, side, anchor, partners)))
  {
    SortByEfiSorts(Filter(cs, Matches(side, anchor)));
    FilterKeepsSorted(SortByEfi(Filter(cs, Matches(side, anchor))), HasPartner(side, partners));
  }

  /** Stability: among complexes of equal EFI score, the compatible list
      keeps the order of `cs` (restricted to the anchor's complexes whose
      partner is known). */
  lemma RankedStable(cs: seq<Complex>, side: Side, anchor: string, partners: seq<Molecule>, e: real)
    ensures Filter(ComplexesOf(Ranked(cs, side, anchor, partners)), EfiIs(e))
         == Filter(Filter(Filter(cs, Matches(side, anchor)), EfiIs(e)), HasPartner(side, partners))
  {
    var m := Filter(cs, Matches(side, anchor));
    FilterCommute(SortByEfi(m), HasPartner(side, partners), EfiIs(e));
    SortByEfiStable(m, e);
  }

  /** Dangling ids are dropped, not an error: the list has one molecule for
      each of the anchor's complexes whose partner id is known, so it is no
      longer than the anchor's complexes. */
  lemma CompatibleCount(cs: seq<Complex>, side: Side, anchor: string, partners: seq<Molecule>)
    ensures |CompatiblePartners(cs, side, anchor, partners)|
         == |Filter(Filter(cs, Matches(side, anchor)), HasPartner(side, partners))|
    ensures |CompatiblePartners(cs, side, anchor, partners)| <= |Filter(cs, Matches(side, anchor))|
  {
    var m := Filter(cs, Matches(side, anchor));
    SortByEfiPermutes(m);
    FilterPermutation(SortByEfi(m), m, HasPartner(side, partners));
  }

  /** Some molecule of `ms` has id `id`. */
  ghost predicate Lists(ms: seq<Molecule>, id: string) {
    exists k :: 0 <= k < |ms| && ms[k].id == id
  }

  /** Some complex of `cs` pairs `anchor` with the partner id `p`. */
  ghost predicate Pairs(cs: seq<Complex>, side: Side, anchor: string, p: string) {
    exists c :: c in cs && AnchorId(c, side) == anchor && PartnerId(c, side) == p
  }

  lemma ListedOnlyIfPaired(cs: seq<Complex>, side: Side, anchor: string, partners: seq<Molecule>, p: string)
    requires Lists(CompatiblePartners(cs, side, anchor, partners), p)
    ensures Find(partners, p).Some? && Pairs(cs, side, anchor, p)
  {
    var r := Ranked(cs, side, anchor, partners);
    var ms := CompatiblePartners(cs, side, anchor, partners);
    var k :| 0 <= k < |ms| && ms[k].id == p;
    assert ms[k] == r[k].molecule;
    RankedOrigins(cs, side, anchor, partners);
    assert r[k].complex in cs && AnchorId(r[k].complex, side) == anchor && PartnerId(r[k].complex, side) == p;
  }

  lemma PairedIsListed(cs: seq<Complex>, side: Side, anchor: string, partners: seq<Molecule>, p: string)
    requires Find(partners, p).Some? && Pairs(cs, side, anchor, p)
    ensures Lists(CompatiblePartners(cs, side, anchor, partners), p)
  {
    var c :| c in cs && AnchorId(c, side) == anchor && PartnerId(c, side) == p;
    var m := Filter(cs, Matches(side, anchor));
    var sorted := SortByEfi(m);
    SortByEfiPermutes(m);
    var r := Join(sorted, side, partners);
    assert Matches(side, anchor)(c);
    assert c in m;
    assert c in multiset(sorted);
    assert c in sorted;
    assert HasPartner(side, partners)(c);
    assert c in Filter(sorted, HasPartner(side, partners));
    assert c in ComplexesOf(r);
    var k :| 0 <= k < |r| && ComplexesOf(r)[k] == c;
    assert Find(partners, PartnerId(r[k].complex, side)) == Some(r[k].molecule);
    assert CompatiblePartners(cs, side, anchor, partners)[k] == r[k].molecule;
  }

  /** Membership, both ways: an id is listed exactly when some complex of
      `cs` pairs it with the anchor and `partners` knows that id. */
  lemma CompatibleIff(cs: seq<Complex>, side: Side, anchor: string, partners: seq<Molecule>, p: string)
    ensures Lists(CompatiblePartners(cs, side, anchor, partners), p)
        <==> Find(partners, p).Some? && Pairs(cs, side, anchor, p)
  {
    if Lists(CompatiblePartners(cs, side, anchor, partners), p) {
      ListedOnlyIfPaired(cs, side, anchor, partners, p);
    }
    if Find(partners, p).Some? && Pairs(cs, side, anchor, p) {
      PairedIsListed(cs, side, anchor, partners, p);
    }
  }

  /** Donor `d` and acceptor `a`, both known, are listed for each other the
      same way: `a` is compatible with `d` exactly when `d` is compatible with `a`. */
  lemma CompatibilitySymmetric(cs: seq<Complex>, hbds: seq<Molecule>, hbas: seq<Molecule>, d: string, a: string)
    requires Find(hbds, d).Some? && Find(hbas, a).Some?
    ensures Lists(CompatiblePartners(cs, Donor, d, hbas), a) <==> Lists(CompatiblePartners(cs, Acceptor, a, hbds), d)
  {
    CompatibleIff(cs, Donor, d, hbas, a);
    CompatibleIff(cs, Acceptor, a, hbds, d);
    assert Pairs(cs, Donor, d, a) <==> Pairs(cs, Acceptor, a, d);
  }

  function PairIs(hbd: string, hba: string): Complex -> bool {
    (c: Complex) => c.hbdId == hbd && c.hbaId == hba
  }

  /** The first complex of the pair `hbd`/`hba`, absent when no complex pairs them. */
  function FirstPair(cs: seq<Complex>, hbd: string, hba: string): (r: Option<Complex>)
    ensures r.None? <==> forall c :: c in cs ==> !(c.hbdId == hbd && c.hbaId == hba)
    ensures r.Some? ==>
      exists i :: 0 <= i < |cs| && cs[i] == r.value && cs[i].hbdId == hbd && cs[i].hbaId == hba
        && forall j :: 0 <= j < i ==> !(cs[j].hbdId == hbd && cs[j].hbaId == hba)
  {
    First(cs, PairIs(hbd, hba))
  }

  /** What the effect derives from the selections. */
  datatype View = View(compatibleHbas: seq<Molecule>, compatibleHbds: seq<Molecule>, currentComplex: Option<Complex>)

  /** The effect that runs whenever a pick or a list changes. An empty id means "nothing selected".
      At most one compatible list is non-empty, and only while exactly one
      half is selected; the current complex is the first complex of the
      fully selected pair, and absent when there is none. */
  function Resolve(hbds: seq<Molecule>, hbas: seq<Molecule>, cs: seq<Complex>, hbd: string, hba: string): (v: View)
    ensures v.compatibleHbas != [] ==> hbd != "" && hba == ""
    ensures v.compatibleHbds != [] ==> hba != "" && hbd == ""
    ensures hbd != "" && hba == "" ==> v.compatibleHbas == CompatiblePartners(cs, Donor, hbd, hbas)
    ensures hba != "" && hbd == "" ==> v.compatibleHbds == CompatiblePartners(cs, Acceptor, hba, hbds)
    ensures v.currentComplex.Some? <==> hbd != "" && hba != "" && exists c :: c in cs && c.hbdId == hbd && c.hbaId == hba
    ensures v.currentComplex.Some? ==>
      exists i :: 0 <= i < |cs| && cs[i] == v.currentComplex.value && cs[i].hbdId == hbd && cs[i].hbaId == hba
        && forall j :: 0 <= j < i ==> !(cs[j].hbdId == hbd && cs[j].hbaId == hba)
  {
    var hbasView := if hbd != "" && hba == "" then CompatiblePartners(cs, Donor, hbd, hbas) else [];
    var hbdsView := if hba != "" && hbd == "" then CompatiblePartners(cs, Acceptor, hba, hbds) else [];
    var current := if hbd != "" && hba != "" then FirstPair(cs, hbd, hba) else None;
    View(hbasView, hbdsView, current)
  }

  /** Every molecule in the non-empty compatible list is paired with the
      selected anchor by some complex. */
  lemma ListedIsPaired(hbds: seq<Molecule>, hbas: seq<Molecule>, cs: seq<Complex>, hbd: string, hba: string, m: Molecule)
    requires var v := Resolve(hbds, hbas, cs, hbd, hba);
      m in (if |v.compatibleHbas| > 0 then v.compatibleHbas else v.compatibleHbds)
    ensures var v := Resolve(hbds, hbas, cs, hbd, hba);
      if |v.compatibleHbas| > 0 then Pairs(cs, Donor, hbd, m.id) else Pairs(cs, Acceptor, hba, m.id)
  {
    var v := Resolve(hbds, hbas, cs, hbd, hba);
    var shown := if |v.compatibleHbas| > 0 then v.compatibleHbas else v.compatibleHbds;
    var k :| 0 <= k < |shown| && shown[k] == m;
    assert Lists(shown, m.id);
    if |v.compatibleHbas| > 0 {
      CompatibleIff(cs, Donor, hbd, hbas, m.id);
    } else {
      CompatibleIff(cs, Acceptor, hba, hbds, m.id);
    }
  }

  /** Picking the missing half from a shown badge completes a pair that
      has a complex, so the effect then finds a current complex for it. */
  lemma ClickedPairResolves(hbds: seq<Molecule>, hbas: seq<Molecule>, cs: seq<Complex>, hbd: string, hba: string, m: Molecule)
    requires var v := Resolve(hbds, hbas, cs, hbd, hba);
      m in (if |v.compatibleHbas| > 0 then v.compatibleHbas else v.compatibleHbds)
    requires m.id != ""
    ensures var v := Resolve(hbds, hbas, cs, hbd, hba);
      var d := if |v.compatibleHbas| > 0 then hbd else m.id;
      var a := if |v.compatibleHbas| > 0 then m.id else hba;
      var w := Resolve(hbds, hbas, cs, d, a);
      w.currentComplex.Some? && w.currentComplex.value in cs &&
      w.currentComplex.value.hbdId == d && w.currentComplex.value.hbaId == a
  {
    ListedIsPaired(hbds, hbas, cs, hbd, hba, m);
    var v := Resolve(hbds, hbas, cs, hbd, hba);
    if |v.compatibleHbas| > 0 {
      var c :| c in cs && AnchorId(c, Donor) == hbd && PartnerId(c, Donor) == m.id;
      assert c.hbdId == hbd && c.hbaId == m.id;
    } else {
      var c :| c in cs && AnchorId(c, Acceptor) == hba && PartnerId(c, Acceptor) == m.id;
      assert c.hbdId == m.id && c.hbaId == hba;
    }
  }

  // A donor with two acceptors, scored 8.5 and 6.0.
  const NoDescriptors := Descriptors(0.0, 0.0, 0.0, 0.0, 0.0, 0.0)
  const Urea := Molecule("urea", "urea", "urea", 0.0, NoDescriptors)
  const Choline := Molecule("cholineChloride", "cholineChloride", "cholineChloride", 0.0, NoDescriptors)
  const Betaine := Molecule("betaine", "betaine", "betaine", 0.0, NoDescriptors)
  const UreaCholine := Complex("urea", "cholineChloride", "1:1", 8.5, 0.0, ComplexDescriptors(0.0, 0.0, 0.0, 0.0, 0.0))
  const UreaBetaine := Complex("urea", "betaine", "1:1", 6.0, 0.0, ComplexDescriptors(0.0, 0.0, 0.0, 0.0, 0.0))

  lemma UreaComplexesRanked()
    ensures SortByEfi(Filter([UreaCholine, UreaBetaine], Matches(Donor, "urea"))) == [UreaCholine, UreaBetaine]
  {
    var cs := [UreaCholine, UreaBetaine];
    var p := Matches(Donor, "urea");
    FilterSnoc([], UreaCholine, p);
    FilterSnoc([UreaCholine], UreaBetaine, p);
    assert [UreaCholine] + [UreaBetaine] == cs;
    assert cs[..1] == [UreaCholine];
    assert SortByEfi([UreaCholine]) == [UreaCholine];
    assert SortByEfi(cs) == Insert([UreaCholine], UreaBetaine);
  }

  lemma UreaComplexesJoined()
    ensures Join([UreaCholine, UreaBetaine], Donor, [Choline, Betaine])
         == [Candidate(UreaCholine, Choline), Candidate(UreaBetaine, Betaine)]
  {
    var cs := [UreaCholine, UreaBetaine];
    var hbas := [Choline, Betaine];
    FirstAt(hbas, IdIs("cholineChloride"), 0);
    FirstAt(hbas, IdIs("betaine"), 1);
    assert cs[..1] == [UreaCholine];
    assert Join([UreaCholine], Donor, hbas) == [Candidate(UreaCholine, Choline)];
  }

  lemma MoleculesOfPair(a: Candidate, b: Candidate)
    ensures MoleculesOf([a, b]) == [a.molecule, b.molecule]
  {
  }

  /** Selecting the donor lists its acceptors best score first. */
  lemma UreaRanking()
    ensures Resolve([Urea], [Choline, Betaine], [UreaCholine, UreaBetaine], "urea", "").compatibleHbas == [Choline, Betaine]
  {
    var cs := [UreaCholine, UreaBetaine];
    var hbas := [Choline, Betaine];
    UreaComplexesRanked();
    UreaComplexesJoined();
    var j := [Candidate(UreaCholine, Choline), Candidate(UreaBetaine, Betaine)];
    assert Ranked(cs, Donor, "urea", hbas) == j;
    MoleculesOfPair(j[0], j[1]);
    assert CompatiblePartners(cs, Donor, "urea", hbas) == [Choline, Betaine];
  }

  /** Selecting both halves of a known pair finds its complex. */
  lemma UreaPairFound()
    ensures Resolve([Urea], [Choline, Betaine], [UreaCholine, UreaBetaine], "urea", "betaine").currentComplex == Some(UreaBetaine)
  {
    FirstAt([UreaCholine, UreaBetaine], PairIs("urea", "betaine"), 1);
  }

  /** An acceptor id no complex mentions gives the explicit absent result. */
  lemma UreaUnknownAcceptor()
    ensures Resolve([Urea], [Choline, Betaine], [UreaCholine, UreaBetaine], "urea", "glycerol").currentComplex == None
  {
  }

  // ---------------------------------------------------------------------------
  // The component's state.

  class MolecularSelector {
    var hbdList: seq<Molecule>
    var hbaList: seq<Molecule>
    var complexes: seq<Complex>
    var selectedHbd: string
    var selectedHba: string
    var compatibleHbas: seq<Molecule>
    var compatibleHbds: seq<Molecule>
    var currentComplex: Option<Complex>

    /** The derived fields agree with what the effect computes from the rest. */
    ghost predicate Valid()
      reads this
    {
      View(compatibleHbas, compatibleHbds, currentComplex) == Resolve(hbdList, hbaList, complexes, selectedHbd, selectedHba)
    }

    constructor ()
      ensures Valid()
      ensures hbdList == [] && hbaList == [] && complexes == []
      ensures selectedHbd == "" && selectedHba == ""
      ensures compatibleHbas == [] && compatibleHbds == [] && currentComplex == None
    {
      hbdList, hbaList, complexes := [], [], [];
      selectedHbd, selectedHba := "", "";
      compatibleHbas, compatibleHbds, currentComplex := [], [], None;
    }

    /** The effect: recomputes the derived fields from the selections and lists. */
    method Recompute()
      modifies this
      ensures Valid()
      ensures hbdList == old(hbdList) && hbaList == old(hbaList) && complexes == old(complexes)
      ensures selectedHbd == old(selectedHbd) && selectedHba == old(selectedHba)
    {
      var v := Resolve(hbdList, hbaList, complexes, selectedHbd, selectedHba);
      compatibleHbas, compatibleHbds, currentComplex := v.compatibleHbas, v.compatibleHbds, v.currentComplex;
    }

    /** A successful load: the three transformed lists replace the empty ones. */
    method Load(hbdEntries: seq<(string, RawMolecule)>, hbaEntries: seq<(string, RawMolecule)>,
                complexEntries: seq<(string, RawComplex)>)
      modifies this
      ensures Valid()
      ensures hbdList == ToMolecules(hbdEntries) && hbaList == ToMolecules(hbaEntries)
      ensures complexes == ToComplexes(complexEntries)
      ensures selectedHbd == old(selectedHbd) && selectedHba == old(selectedHba)
    {
      hbdList := ToMolecules(hbdEntries);
      hbaList := ToMolecules(hbaEntries);
      complexes := ToComplexes(complexEntries);
      Recompute();
    }

    /** Choosing a donor in the list: the current one is cleared, any other
        replaces it; the acceptor is left alone. */
    method SelectHbd(value: string)
      modifies this
      ensures Valid()
      ensures selectedHbd == if value == old(selectedHbd) then "" else value
      ensures selectedHba == old(selectedHba)
      ensures hbdList == old(hbdList) && hbaList == old(hbaList) && complexes == old(complexes)
    {
      selectedHbd := if value == selectedHbd then "" else value;
      Recompute();
    }

    /** Choosing an acceptor in the list, mirroring SelectHbd. */
    method SelectHba(value: string)
      modifies this
      ensures Valid()
      ensures selectedHba == if value == old(selectedHba) then "" else value
      ensures selectedHbd == old(selectedHbd)
      ensures hbdList == old(hbdList) && hbaList == old(hbaList) && complexes == old(complexes)
    {
      selectedHba := if value == selectedHba then "" else value;
      Recompute();
    }

    /** The molecule record of the selected donor, if the list has it. */
    function SelectedHbdData(): (r: Option<Molecule>)
      reads this
      ensures r.Some? ==> r.value in hbdList && r.value.id == selectedHbd
      ensures r.None? <==> forall i :: 0 <= i < |hbdList| ==> hbdList[i].id != selectedHbd
      ensures r.Some? ==> exists i :: 0 <= i < |hbdList| && hbdList[i] == r.value && forall j :: 0 <= j < i ==> hbdList[j].id != selectedHbd
    {
      Find(hbdList, selectedHbd)
    }

    /** The molecule record of the selected acceptor, if the list has it. */
    function SelectedHbaData(): (r: Option<Molecule>)
      reads this
      ensures r.Some? ==> r.value in hbaList && r.value.id == selectedHba
      ensures r.None? <==> forall i :: 0 <= i < |hbaList| ==> hbaList[i].id != selectedHba
      ensures r.Some? ==> exists i :: 0 <= i < |hbaList| && hbaList[i] == r.value && forall j :: 0 <= j < i ==> hbaList[j].id != selectedHba
    {
      Find(hbaList, selectedHba)
    }

    /** The badges shown: the compatible acceptors if there are any, else the compatible donors. */
    function ShownCompatible(): seq<Molecule>
      reads this
    {
      if |compatibleHbas| > 0 then compatibleHbas else compatibleHbds
    }

    /** The badges are the compatible acceptors of the picked donor, or
        else the compatible donors of the picked acceptor. */
    lemma ShownIsCompatible()
      requires Valid()
      ensures |compatibleHbas| > 0 ==>
        selectedHbd != "" && selectedHba == "" && ShownCompatible() == CompatiblePartners(complexes, Donor, selectedHbd, hbaList)
      ensures |compatibleHbas| == 0 && ShownCompatible() != [] ==>
        selectedHba != "" && selectedHbd == "" && ShownCompatible() == CompatiblePartners(complexes, Acceptor, selectedHba, hbdList)
    {
    }

    /** The complex a badge takes its EFI score from. Every shown badge finds one. */
    function BadgeComplex(m: Molecule): (r: Option<Complex>)
      reads this
      requires Valid() && m in ShownCompatible()
      ensures r.Some? && r.value in complexes
      ensures |compatibleHbas| > 0 ==> r.value.hbdId == selectedHbd && r.value.hbaId == m.id
      ensures |compatibleHbas| == 0 ==> r.value.hbaId == selectedHba && r.value.hbdId == m.id
      ensures |compatibleHbas| > 0 ==>
        (exists i :: 0 <= i < |complexes| && complexes[i] == r.value &&
           forall j :: 0 <= j < i ==> !(complexes[j].hbdId == selectedHbd && complexes[j].hbaId == m.id))
      ensures |compatibleHbas| == 0 ==>
        (exists i :: 0 <= i < |complexes| && complexes[i] == r.value &&
           forall j :: 0 <= j < i ==> !(complexes[j].hbdId == m.id && complexes[j].hbaId == selectedHba))
    {
      ListedIsPaired(hbdList, hbaList, complexes, selectedHbd, selectedHba, m);
      if |compatibleHbas| > 0 then FirstPair(complexes, selectedHbd, m.id)
      else FirstPair(complexes, m.id, selectedHba)
    }

    /** Clicking a badge fills the missing half with the badge's molecule
        (it does not toggle). When that id is not empty the pair is then
        fully selected and has a complex. */
    method ClickBadge(m: Molecule)
      requires Valid() && m in ShownCompatible()
      modifies this
      ensures Valid()
      ensures old(|compatibleHbas|) > 0 ==> selectedHba == m.id && selectedHbd == old(selectedHbd)
      ensures old(|compatibleHbas|) == 0 ==> selectedHbd == m.id && selectedHba == old(selectedHba)
      ensures hbdList == old(hbdList) && hbaList == old(hbaList) && complexes == old(complexes)
      ensures m.id != "" ==>
        (currentComplex.Some? && currentComplex.value in complexes &&
         currentComplex.value.hbdId == selectedHbd && currentComplex.value.hbaId == selectedHba)
    {
      if m.id != "" {
        ClickedPairResolves(hbdList, hbaList, complexes, selectedHbd, selectedHba, m);
      }
      if |compatibleHbas| > 0 {
        selectedHba := m.id;
      } else {
        selectedHbd := m.id;
      }
      Recompute();
    }
  }
}
