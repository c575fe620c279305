/**
 The result records returned by the lookup endpoints, with the order that
 `#[derive(PartialOrd, Ord, PartialEq, Eq, Default)]` gives them: fields are
 compared in declaration order, and the derived default is the zero of each
 field.
 */
module ResultRecords {
  import opened Wrappers
  import opened Cmp

  newtype u32 = x: int | 0 <= x < 0x1_0000_0000

  /** `ResultGene`. */
  datatype ResultGene = ResultGene(ncbiGeneId: u32, geneSymbol: string, hgncId: Option<string>)

  /** `ResultHpoTerm`. */
  datatype ResultHpoTerm = ResultHpoTerm(termId: string, name: string)

  /** `<ResultGene as Ord>::cmp`. */
  function CmpGene(a: ResultGene, b: ResultGene): Ordering {
    CmpInt(a.ncbiGeneId as int, b.ncbiGeneId as int)
      .Then(CmpString(a.geneSymbol, b.geneSymbol))
      .Then(CmpOption(a.hgncId, b.hgncId))
  }

  /** `a <= b` on `ResultGene`. */
  predicate GeneLe(a: ResultGene, b: ResultGene) {
    CmpGene(a, b) != Greater
  }

  /** `ResultGene::default()`. */
  function DefaultGene(): ResultGene {
    ResultGene(0, "", None)
  }

  /** `<ResultHpoTerm as Ord>::cmp`. */
  function CmpTerm(a: ResultHpoTerm, b: ResultHpoTerm): Ordering {
    CmpString(a.termId, b.termId).Then(CmpString(a.name, b.name))
  }

  /** `a <= b` on `ResultHpoTerm`. */
  predicate TermLe(a: ResultHpoTerm, b: ResultHpoTerm) {
    CmpTerm(a, b) != Greater
  }

  /** `ResultHpoTerm::default()`. */
  function DefaultTerm(): ResultHpoTerm {
    ResultHpoTerm("", "")
  }

  // ----- ResultGene -----

  /** The gene ID decides first; the symbol only when the IDs agree; the HGNC ID, `None` first, only when both agree. */
  lemma CmpGeneFieldOrder(a: ResultGene, b: ResultGene)
    ensures a.ncbiGeneId < b.ncbiGeneId ==> CmpGene(a, b) == Less
    ensures a.ncbiGeneId == b.ncbiGeneId ==> CmpGene(a, b) == CmpString(a.geneSymbol, b.geneSymbol).Then(CmpOption(a.hgncId, b.hgncId))
    ensures a.ncbiGeneId == b.ncbiGeneId && a.geneSymbol == b.geneSymbol && a.hgncId.None? && b.hgncId.Some? ==> CmpGene(a, b) == Less
  {
    if a.ncbiGeneId == b.ncbiGeneId && a.geneSymbol == b.geneSymbol {
      CmpStringEqual(a.geneSymbol, b.geneSymbol);
    }
  }

  /** `Ord` agrees with the derived `Eq`. */
  lemma CmpGeneEqual(a: ResultGene, b: ResultGene)
    ensures CmpGene(a, b) == Equal <==> a == b
  {
    CmpStringEqual(a.geneSymbol, b.geneSymbol);
    CmpOptionEqual(a.hgncId, b.hgncId);
  }

  /** Swapping the operands reverses the result. */
  lemma CmpGeneReverse(a: ResultGene, b: ResultGene)
    ensures CmpGene(b, a) == CmpGene(a, b).Reverse()
  {
    CmpStringReverse(a.geneSymbol, b.geneSymbol);
    CmpOptionReverse(a.hgncId, b.hgncId);
  }

  lemma CmpGeneTransitive(a: ResultGene, b: ResultGene, c: ResultGene)
    requires CmpGene(a, b) == Less && CmpGene(b, c) == Less
    ensures CmpGene(a, c) == Less
  {
    CmpStringEqual(a.geneSymbol, b.geneSymbol);
    CmpStringEqual(b.geneSymbol, c.geneSymbol);
    CmpOptionEqual(a.hgncId, b.hgncId);
    CmpOptionEqual(b.hgncId, c.hgncId);
    if a.ncbiGeneId == b.ncbiGeneId == c.ncbiGeneId {
      if a.geneSymbol == b.geneSymbol == c.geneSymbol {
        CmpOptionTransitive(a.hgncId, b.hgncId, c.hgncId);
      } else if a.geneSymbol != b.geneSymbol && b.geneSymbol != c.geneSymbol {
        CmpStringTransitive(a.geneSymbol, b.geneSymbol, c.geneSymbol);
      }
    }
  }

  /** `<=` on `ResultGene` is a total order. */
  lemma GeneLeTotalOrder()
    ensures TotalOrdering(GeneLe)
  {
    forall x: ResultGene ensures GeneLe(x, x) {
      CmpGeneEqual(x, x);
    }
    forall x: ResultGene, y: ResultGene | GeneLe(x, y) && GeneLe(y, x) ensures x == y {
      CmpGeneReverse(x, y);
      CmpGeneEqual(x, y);
    }
    forall x: ResultGene, y: ResultGene, z: ResultGene | GeneLe(x, y) && GeneLe(y, z) ensures GeneLe(x, z) {
      CmpGeneEqual(x, y);
      CmpGeneEqual(y, z);
      if CmpGene(x, y) == Less && CmpGene(y, z) == Less {
        CmpGeneTransitive(x, y, z);
      }
    }
    forall x: ResultGene, y: ResultGene ensures GeneLe(x, y) || GeneLe(y, x) {
      CmpGeneReverse(x, y);
    }
  }

  /** The derived default is the least `ResultGene`. */
  lemma DefaultGeneIsLeast(g: ResultGene)
    ensures GeneLe(DefaultGene(), g)
  {
    CmpStringLess("", g.geneSymbol);
    CmpStringEqual("", g.geneSymbol);
  }

  // ----- ResultHpoTerm -----

  /** The term ID decides; the name only breaks ties. */
  lemma CmpTermFieldOrder(a: ResultHpoTerm, b: ResultHpoTerm)
    ensures a.termId != b.termId ==> CmpTerm(a, b) == CmpString(a.termId, b.termId)
    ensures a.termId == b.termId ==> CmpTerm(a, b) == CmpString(a.name, b.name)
  {
    CmpStringEqual(a.termId, b.termId);
  }

  /** `Ord` agrees with the derived `Eq`. */
  lemma CmpTermEqual(a: ResultHpoTerm, b: ResultHpoTerm)
    ensures CmpTerm(a, b) == Equal <==> a == b
  {
    CmpStringEqual(a.termId, b.termId);
    CmpStringEqual(a.name, b.name);
  }

  /** Swapping the operands reverses the result. */
  lemma CmpTermReverse(a: ResultHpoTerm, b: ResultHpoTerm)
    ensures CmpTerm(b, a) == CmpTerm(a, b).Reverse()
  {
    CmpStringReverse(a.termId, b.termId);
    CmpStringReverse(a.name, b.name);
  }

  lemma CmpTermTransitive(a: ResultHpoTerm, b: ResultHpoTerm, c: ResultHpoTerm)
    requires CmpTerm(a, b) == Less && CmpTerm(b, c) == Less
    ensures CmpTerm(a, c) == Less
  {
    CmpStringEqual(a.termId, b.termId);
    CmpStringEqual(b.termId, c.termId);
    if a.termId == b.termId == c.termId {
      CmpStringTransitive(a.name, b.name, c.name);
    } else if a.termId != b.termId && b.termId != c.termId {
      CmpStringTransitive(a.termId, b.termId, c.termId);
    }
  }

  /** `<=` on `ResultHpoTerm` is a total order. */
  lemma TermLeTotalOrder()
    ensures TotalOrdering(TermLe)
  {
    forall x: ResultHpoTerm ensures TermLe(x, x) {
      CmpTermEqual(x, x);
    }
    forall x: ResultHpoTerm, y: ResultHpoTerm | TermLe(x, y) && TermLe(y, x) ensures x == y {
      CmpTermReverse(x, y);
      CmpTermEqual(x, y);
    }
    forall x: ResultHpoTerm, y: ResultHpoTerm, z: ResultHpoTerm | TermLe(x, y) && TermLe(y, z) ensures TermLe(x, z) {
      CmpTermEqual(x, y);
      CmpTermEqual(y, z);
      if CmpTerm(x, y) == Less && CmpTerm(y, z) == Less {
        CmpTermTransitive(x, y, z);
      }
    }
    forall x: ResultHpoTerm, y: ResultHpoTerm ensures TermLe(x, y) || TermLe(y, x) {
      CmpTermReverse(x, y);
    }
  }

  /** The derived default is the least `ResultHpoTerm`. */
  lemma DefaultTermIsLeast(t: ResultHpoTerm)
    ensures TermLe(DefaultTerm(), t)
  {
    CmpStringLess("", t.termId);
    CmpStringEqual("", t.termId);
    CmpStringLess("", t.name);
    CmpStringEqual("", t.name);
  }
}
