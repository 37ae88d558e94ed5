/** Simple regular expressions: finite sets of products, denoting the
    union of the products' languages. */
module Sres {
  import opened Atoms
  import opened Languages
  import opened Products
  import ProductSemantics

  /** A set of products; the empty set denotes the empty language. */
  datatype Sre = Sre(products: set<Product>)

  /** Builds an expression from any products; repeated products collapse. */
  function Make(ps: seq<Product>): (r: Sre)
    ensures forall p :: p in r.products <==> p in ps
  {
    Sre(Elements(ps))
  }

  /** `big` entails `small` when every product of `small` is contained in
      some product of `big`. */
  function Contains(big: Sre, small: Sre): (r: bool)
    ensures small.products == {} ==> r
    ensures r && small.products != {} ==> big.products != {}
    ensures r ==> SreMessages(small) <= SreMessages(big)
  {
    forall q :: q in small.products ==> exists p :: p in big.products && Products.Contains(p, q)
  }

  /** The union of the messages of the products. */
  function SreMessages(s: Sre): (r: set<Message>)
    ensures forall m :: m in r <==> exists p :: p in s.products && m in ProductMessages(p)
  {
    set p, m | p in s.products && m in ProductMessages(p) :: m
  }

  /** Membership of a word in the union of the products' languages. */
  ghost predicate InSre(w: Word, s: Sre) {
    exists p :: p in s.products && InAtoms(w, p.atoms)
  }

  /** Construction ignores order and repetition. */
  lemma MakeIgnoresOrderAndDuplicates(xs: seq<Product>, ys: seq<Product>)
    requires forall p :: p in xs <==> p in ys
    ensures Make(xs) == Make(ys)
  {
    assert Make(xs).products == Make(ys).products;
  }

  /** Entailment holds exactly when every product on the right has its
      language included in that of some product on the left. */
  lemma ContainsIsProductwiseInclusion(big: Sre, small: Sre)
    ensures Contains(big, small) <==>
      forall q :: q in small.products ==> exists p :: p in big.products && Includes(p.atoms, q.atoms)
  {
    forall p, q {
      ProductSemantics.ContainsIsInclusion(p, q);
    }
  }

  /** Between one-product expressions, entailment is product entailment. */
  lemma SingletonContains(p: Product, q: Product)
    ensures Contains(Sre({p}), Sre({q})) <==> Products.Contains(p, q)
  {
  }

  /** An expression over `a*` contains the one over the star over no
      message, but not the other way round. */
  lemma EmptyStarExample()
    ensures Contains(Sre({Product([Star({"a"})])}), Sre({Product([Star({})])}))
    ensures !Contains(Sre({Product([Star({})])}), Sre({Product([Star({"a"})])}))
  {
    var aProduct, zProduct := Product([Star({"a"})]), Product([Star({})]);
    SingletonContains(aProduct, zProduct);
    SingletonContains(zProduct, aProduct);
    EmptyProductLaws(aProduct, {"a"});
    EmptyStarIsEpsilon();
    assert !Products.Contains(zProduct, aProduct) by {
      assert "a" in {"a"};
      EmptyProductLaws(Product([]), {"a"});
      assert Strip(zProduct.atoms) == [];
    }
  }

  /** Entailment is sound: every word of `small` is a word of `big`. */
  lemma ContainsIsSound(big: Sre, small: Sre)
    requires Contains(big, small)
    ensures forall w :: InSre(w, small) ==> InSre(w, big)
  {
    forall w | InSre(w, small) ensures InSre(w, big) {
      var q :| q in small.products && InAtoms(w, q.atoms);
      var p :| p in big.products && Products.Contains(p, q);
      ProductSemantics.ContainsIsInclusion(p, q);
    }
  }

  /** Everything an expression entails mentions only its messages. */
  lemma ContainsKeepsMessages(big: Sre, small: Sre)
    requires Contains(big, small)
    ensures SreMessages(small) <= SreMessages(big)
  {
    forall m | m in SreMessages(small) ensures m in SreMessages(big) {
      var q :| q in small.products && m in ProductMessages(q);
      var p :| p in big.products && Products.Contains(p, q);
    }
  }

  /** Entailment is reflexive. */
  lemma ContainsReflexive(s: Sre)
    ensures Contains(s, s)
  {
    forall q | q in s.products ensures exists p :: p in s.products && Products.Contains(p, q) {
      Products.ContainsReflexive(q);
    }
  }

  /** Entailment is transitive. */
  lemma ContainsTransitive(a: Sre, b: Sre, c: Sre)
    requires Contains(a, b) && Contains(b, c)
    ensures Contains(a, c)
  {
    forall r | r in c.products ensures exists p :: p in a.products && Products.Contains(p, r) {
      var q :| q in b.products && Products.Contains(q, r);
      var p :| p in a.products && Products.Contains(p, q);
      ProductSemantics.ContainsTransitive(p, q, r);
    }
  }

  /** Every expression entails the empty expression, and the empty
      expression entails only the empty expression. */
  lemma EmptySreLaws(s: Sre)
    ensures Contains(s, Sre({}))
    ensures Contains(Sre({}), s) <==> s.products == {}
  {
    if s.products != {} {
      var q :| q in s.products;
    }
  }

  /** The expressions of the construction tests can be built, including one
      holding both the empty product and the product of the empty star. */
  lemma ConstructionExamples()
    ensures Make([Products.Make([AtomItem(Star({"start", "stop"})), AtomItem(Letter("reset"))]),
                  Products.Make([AtomItem(Star({"help"}))])]).products
            == {Product([Star({"start", "stop"}), Letter("reset")]), Product([Star({"help"})])}
    ensures |Make([Product([Star({})]), Product([])]).products| == 2
  {
    var p1 := Products.Make([AtomItem(Star({"start", "stop"})), AtomItem(Letter("reset"))]);
    var p2 := Products.Make([AtomItem(Star({"help"}))]);
    MakeCons(AtomItem(Star({"start", "stop"})), [AtomItem(Letter("reset"))]);
    MakeCons(AtomItem(Letter("reset")), []);
    MakeCons(AtomItem(Star({"help"})), []);
    assert p1 == Product([Star({"start", "stop"}), Letter("reset")]);
    assert p2 == Product([Star({"help"})]);
    assert Product([Star({})]) != Product([]);
    assert Make([Product([Star({})]), Product([])]).products == {Product([Star({})]), Product([])};
  }

  /** The containment test: `SRE(start*)` and a copy of it entail each other
      and entail the empty expression, which entails neither. */
  lemma ContainmentExample()
    ensures var s1, s2 := Make([Product([Star({"start"})])]), Make([Product([Star({"start"})])]);
      Contains(s1, s2) && Contains(s2, s1) && Contains(s1, Sre({})) && !Contains(Sre({}), s1)
  {
    var p1 := Product([Star({"start"})]);
    var s1 := Make([p1]);
    assert p1 in [p1];
    assert p1 in s1.products;
    ContainsReflexive(s1);
    EmptySreLaws(s1);
  }
}
