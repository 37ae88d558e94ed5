/** Products: ordered concatenations of atoms, their construction and the
    recursive entailment test of Abdulla, Collomb-Annichini, Bouajjani and
    Jonsson (2004), which peels the head atom off each side. */
module Products {
  import opened Atoms

  /** A product `e1 · e2 · ... · en`; the empty product denotes ε. */
  datatype Product = Product(atoms: seq<Atom>)

  /** An argument of the product constructor: an atom, or a product whose
      atoms are spliced in place. */
  datatype Item = AtomItem(atom: Atom) | ProductItem(product: Product)

  function ItemAtoms(it: Item): seq<Atom> {
    match it
    case AtomItem(a) => [a]
    case ProductItem(p) => p.atoms
  }

  /** Builds a product from atoms and products, flattening the products so
      that the result is a sequence of atoms. */
  function Make(items: seq<Item>): (r: Product)
    ensures forall a :: a in r.atoms <==> exists i :: 0 <= i < |items| && a in ItemAtoms(items[i])
  {
    if items == [] then Product([])
    else
      var rest := Make(items[1..]);
      assert forall i :: 1 <= i < |items| ==> items[i] == items[1..][i - 1];
      Product(ItemAtoms(items[0]) + rest.atoms)
  }

  /** The messages mentioned anywhere in a sequence of atoms. */
  function AtomsMessages(s: seq<Atom>): (r: set<Message>)
    ensures forall m :: m in r <==> exists i :: 0 <= i < |s| && m in Messages(s[i])
  {
    if s == [] then {}
    else
      var rest := AtomsMessages(s[1..]);
      assert forall i :: 1 <= i < |s| ==> s[i] == s[1..][i - 1];
      Messages(s[0]) + rest
  }

  /** The union of the messages of a product's atoms. */
  function ProductMessages(p: Product): (r: set<Message>)
    ensures forall m :: m in r <==> exists i :: 0 <= i < |p.atoms| && m in Messages(p.atoms[i])
    ensures p.atoms == [] ==> r == {}
  {
    AtomsMessages(p.atoms)
  }

  /** No atom of the sequence is the star over no message. */
  predicate NoEmptyStar(s: seq<Atom>) {
    forall i :: 0 <= i < |s| ==> s[i] != Star({})
  }

  /** Drops the stars over no message, which denote ε, keeping the other
      atoms in order. */
  function Strip(s: seq<Atom>): (r: seq<Atom>)
    ensures NoEmptyStar(r)
    ensures |r| <= |s|
    ensures forall a :: a in r <==> a in s && a != Star({})
  {
    if s == [] then []
    else if s[0] == Star({}) then Strip(s[1..])
    else [s[0]] + Strip(s[1..])
  }

  /** The head/tail recursion: with `p = e2 · p2` and `q = e1 · p1`, `p`
      entails `q` when `e2` cannot hold `e1` but `p2` entails `q`; or `e1`
      is a letter atom held by `e2` and `p2` entails `p1`; or `e2` is a
      star atom holding `e1` and `p` still entails `p1`. Equal sequences
      and an empty right side are entailed at once, and the empty left side
      entails nothing else. Everything `p` entails mentions only messages
      of `p`. */
  function Decide(p: seq<Atom>, q: seq<Atom>): (r: bool)
    ensures r ==> AtomsMessages(q) <= AtomsMessages(p)
    decreases |p| + |q|
  {
    if p == q then true
    else if q == [] then true
    else if p == [] then false
    else
      var e2, p2, e1, p1 := p[0], p[1..], q[0], q[1..];
      (!Atoms.Contains(e2, e1) && Decide(p2, q))
      || (e1.Letter? && Atoms.Contains(e2, e1) && Decide(p2, p1))
      || (e2.Star? && Atoms.Contains(e2, e1) && Decide(p, p1))
  }

  /** Product entailment: the stars over no message are dropped from both
      sides, then the head/tail recursion decides. */
  function Contains(big: Product, small: Product): (r: bool)
    ensures r ==> ProductMessages(small) <= ProductMessages(big)
  {
    StripKeepsMessages(big.atoms);
    StripKeepsMessages(small.atoms);
    Decide(Strip(big.atoms), Strip(small.atoms))
  }

  /** Dropping stars over no message loses no message. */
  lemma StripKeepsMessages(s: seq<Atom>)
    ensures AtomsMessages(Strip(s)) == AtomsMessages(s)
  {
    forall m | m in AtomsMessages(s) ensures m in AtomsMessages(Strip(s)) {
      var i :| 0 <= i < |s| && m in Messages(s[i]);
      assert s[i] != Star({});
      assert s[i] in Strip(s);
    }
  }

  // Construction.

  /** Flattening keeps the argument atoms in order: building from the
      concatenation of two argument lists concatenates the products. */
  lemma {:induction false} MakeAppend(xs: seq<Item>, ys: seq<Item>)
    ensures Make(xs + ys).atoms == Make(xs).atoms + Make(ys).atoms
    decreases |xs|
  {
    if xs == [] {
      assert xs + ys == ys;
    } else {
      assert (xs + ys)[1..] == xs[1..] + ys;
      MakeAppend(xs[1..], ys);
    }
  }

  /** Building a product from atoms alone keeps exactly those atoms, in
      order. */
  lemma {:induction false} MakeFromAtoms(s: seq<Atom>)
    ensures Make(seq(|s|, i requires 0 <= i < |s| => AtomItem(s[i]))).atoms == s
    decreases |s|
  {
    var items := seq(|s|, i requires 0 <= i < |s| => AtomItem(s[i]));
    if s != [] {
      assert items[1..] == seq(|s[1..]|, i requires 0 <= i < |s[1..]| => AtomItem(s[1..][i]));
      MakeFromAtoms(s[1..]);
      assert s == [s[0]] + s[1..];
    }
  }

  /** A product given as an argument is spliced in place rather than
      nested: `Product(Product(e1), e2)` has the atoms `e1, e2`. */
  lemma MakeSplicesProducts(e1: Atom, e2: Atom)
    ensures Make([ProductItem(Make([AtomItem(e1)])), AtomItem(e2)]).atoms == [e1, e2]
  {
    var inner := [AtomItem(e1)];
    assert inner[1..] == [];
    var outer := [ProductItem(Make(inner)), AtomItem(e2)];
    assert outer[1..] == [AtomItem(e2)];
    assert outer[1..][1..] == [];
  }

  /** Splicing is associative: a product built from a product built from
      `xs`, followed by `ys`, is the product built from `xs + ys`. */
  lemma MakeFlattensNested(xs: seq<Item>, ys: seq<Item>)
    ensures Make([ProductItem(Make(xs))] + ys) == Make(xs + ys)
  {
    var items := [ProductItem(Make(xs))] + ys;
    assert items[1..] == ys;
    MakeAppend(xs, ys);
  }

  // Entailment facts the tests state.

  /** Entailment is reflexive. */
  lemma ContainsReflexive(p: Product)
    ensures Contains(p, p)
  {
  }

  /** Every product contains the empty product, and the empty product does
      not contain a product over a star with some message. */
  lemma EmptyProductLaws(p: Product, s: set<Message>)
    requires s != {}
    ensures Contains(p, Product([]))
    ensures !Contains(Product([]), Product([Star(s)]))
  {
    assert Strip([Star(s)]) == [Star(s)];
  }

  /** The product of the star over no message and the empty product contain
      each other: empty stars act as ε. */
  lemma EmptyStarIsEpsilon()
    ensures Contains(Product([Star({})]), Product([]))
    ensures Contains(Product([]), Product([Star({})]))
  {
    assert Strip([Star({})]) == [];
  }

  /** Monotonicity lifts to one-star products: `x*` is contained in `z*`
      exactly when `x` is a subset of `z`. */
  lemma StarProductMonotone(x: set<Message>, z: set<Message>)
    ensures Contains(Product([Star(z)]), Product([Star(x)])) <==> x <= z
  {
    var big, small := [Star(z)], [Star(x)];
    if x == {} {
      assert Strip(small) == [];
    } else if z == {} {
      assert Strip(big) == [] && Strip(small) == small;
      assert x !in {{}};
    } else {
      assert Strip(big) == big && Strip(small) == small;
      assert big[1..] == [] && small[1..] == [];
      if x != z {
        assert Decide(big, small) == (x <= z && Decide(big, []));
      }
    }
  }

  /** `(start+stop)*` contains `start*`. */
  lemma StartStopExample()
    ensures Contains(Product([Star({"start", "stop"})]), Product([Star({"start"})]))
  {
    StarProductMonotone({"start"}, {"start", "stop"});
  }

  /** A `start`/`stop` loop followed by `reset+ε` contains `reset+ε` alone:
      the loop cannot hold `reset`, so it is skipped. */
  lemma ResetExample()
    ensures Contains(Product([Star({"start", "stop"}), Letter("reset")]), Product([Letter("reset")]))
  {
    var loop, reset := Star({"start", "stop"}), Letter("reset");
    var p := [loop, reset];
    assert "start" in loop.msgs && "reset" !in loop.msgs;
    assert NoEmptyStar(p) && NoEmptyStar([reset]);
    StripKeepsClean(p);
    StripKeepsClean([reset]);
    assert p[1..] == [reset];
    assert Decide(p[1..], [reset]);
  }

  /** One step of flattening: the first argument's atoms come first. */
  lemma MakeCons(it: Item, rest: seq<Item>)
    ensures Make([it] + rest).atoms == ItemAtoms(it) + Make(rest).atoms
  {
    assert ([it] + rest)[1..] == rest;
  }

  /** A star head that contains the other side's head swallows it. */
  lemma StarSwallowsHead(p: seq<Atom>, e: Atom, rest: seq<Atom>)
    requires p != [] && p[0].Star? && Atoms.Contains(p[0], e)
    requires Decide(p, rest)
    ensures Decide(p, [e] + rest)
  {
    var q := [e] + rest;
    assert q[0] == e && q[1..] == rest;
  }

  /** Dropping the stars over no message leaves a sequence without any
      unchanged. */
  lemma {:induction false} StripKeepsClean(s: seq<Atom>)
    requires NoEmptyStar(s)
    ensures Strip(s) == s
  {
    if s != [] {
      assert NoEmptyStar(s[1..]) by {
        forall i | 0 <= i < |s[1..]| ensures s[1..][i] != Star({}) {
          assert s[1..][i] == s[i + 1];
        }
      }
      StripKeepsClean(s[1..]);
      assert s == [s[0]] + s[1..];
    }
  }

  /** One step of dropping the stars over no message. */
  lemma StripCons(a: Atom, rest: seq<Atom>)
    ensures Strip([a] + rest) == if a == Star({}) then Strip(rest) else [a] + Strip(rest)
  {
    assert ([a] + rest)[1..] == rest;
  }

  // The worked examples listed with the product tests, each atom read as a
  // one-atom product.

  /** ε contains `∅* · ∅*` but not `(a+ε) · (a+ε)`. */
  lemma WorkedExampleEpsilon()
    ensures Contains(Make([]), Make([AtomItem(Star({})), AtomItem(Star({}))]))
    ensures !Contains(Make([]), Make([AtomItem(Letter("a")), AtomItem(Letter("a"))]))
  {
    MakeCons(AtomItem(Star({})), [AtomItem(Star({}))]);
    MakeCons(AtomItem(Star({})), []);
    MakeCons(AtomItem(Letter("a")), [AtomItem(Letter("a"))]);
    MakeCons(AtomItem(Letter("a")), []);
    var aa := [Letter("a"), Letter("a")];
    assert Strip(aa) == aa by {
      assert aa[1..] == [Letter("a")];
      assert aa[1..][1..] == [];
    }
    assert Strip([Star({}), Star({})]) == [];
  }

  /** `a+ε` contains `∅* · ε · (a+ε) · ∅*`. */
  lemma WorkedExampleLetter()
    ensures Contains(Product([Letter("a")]),
                     Make([AtomItem(Star({})), ProductItem(Make([])), AtomItem(Letter("a")), AtomItem(Star({}))]))
  {
    var noStar, aLetter := Star({}), Letter("a");
    MakeCons(AtomItem(noStar), [ProductItem(Make([])), AtomItem(aLetter), AtomItem(noStar)]);
    MakeCons(ProductItem(Make([])), [AtomItem(aLetter), AtomItem(noStar)]);
    MakeCons(AtomItem(aLetter), [AtomItem(noStar)]);
    MakeCons(AtomItem(noStar), []);
    StripCons(noStar, [aLetter, noStar]);
    StripCons(aLetter, [noStar]);
    StripCons(noStar, []);
  }

  /** `a*` contains `(a+ε) · a*` and `(a+ε) · ε · ∅* · (a+ε) · a*`. */
  lemma WorkedExampleStarSwallows()
    ensures Contains(Product([Star({"a"})]), Make([AtomItem(Letter("a")), AtomItem(Star({"a"}))]))
    ensures Contains(Product([Star({"a"})]),
                     Make([AtomItem(Letter("a")), ProductItem(Make([])), AtomItem(Star({})),
                           AtomItem(Letter("a")), AtomItem(Star({"a"}))]))
  {
    var aLetter, aStar := Letter("a"), Star({"a"});
    StarSwallowsStripped();
    var p := [aStar];
    assert Strip(p) == p by { StripCons(aStar, []); assert "a" in aStar.msgs; }
    assert Decide(p, []);
    StarSwallowsHead(p, aStar, []);
    assert [aStar] + [] == [aStar];
    StarSwallowsHead(p, aLetter, [aStar]);
    assert [aLetter] + [aStar] == [aLetter, aStar];
    StarSwallowsHead(p, aLetter, [aLetter, aStar]);
    assert [aLetter] + [aLetter, aStar] == [aLetter, aLetter, aStar];
  }

  /** The two products of the previous example, built and stripped. */
  lemma StarSwallowsStripped()
    ensures Strip(Make([AtomItem(Letter("a")), AtomItem(Star({"a"}))]).atoms) == [Letter("a"), Star({"a"})]
    ensures Strip(Make([AtomItem(Letter("a")), ProductItem(Make([])), AtomItem(Star({})),
                        AtomItem(Letter("a")), AtomItem(Star({"a"}))]).atoms)
         == [Letter("a"), Letter("a"), Star({"a"})]
  {
    var aLetter, aStar := Letter("a"), Star({"a"});
    var tail := [AtomItem(aLetter), AtomItem(aStar)];
    LetterStarStripped();
    MakeCons(AtomItem(aLetter), [ProductItem(Make([])), AtomItem(Star({}))] + tail);
    EmptyItemsVanish(tail);
    assert [ProductItem(Make([])), AtomItem(Star({}))] + tail
        == [ProductItem(Make([])), AtomItem(Star({})), AtomItem(aLetter), AtomItem(aStar)];
    StripCons(aLetter, Make(tail).atoms);
  }

  /** `(a+ε) · a*` is built atom by atom and has no star over no message. */
  lemma LetterStarStripped()
    ensures Make([AtomItem(Letter("a")), AtomItem(Star({"a"}))]).atoms == [Letter("a"), Star({"a"})]
    ensures Strip([Letter("a"), Star({"a"})]) == [Letter("a"), Star({"a"})]
  {
    var aLetter, aStar := Letter("a"), Star({"a"});
    MakeCons(AtomItem(aLetter), [AtomItem(aStar)]);
    MakeCons(AtomItem(aStar), []);
    assert "a" in aStar.msgs;
    StripCons(aLetter, [aStar]);
    StripCons(aStar, []);
  }

  /** An empty product followed by a star over no message adds nothing once
      stripped. */
  lemma EmptyItemsVanish(tail: seq<Item>)
    ensures Strip(Make([ProductItem(Make([])), AtomItem(Star({}))] + tail).atoms) == Strip(Make(tail).atoms)
  {
    var items := [ProductItem(Make([])), AtomItem(Star({}))] + tail;
    MakeCons(ProductItem(Make([])), [AtomItem(Star({}))] + tail);
    assert items == [ProductItem(Make([]))] + ([AtomItem(Star({}))] + tail);
    MakeCons(AtomItem(Star({})), tail);
    var later := Make([AtomItem(Star({}))] + tail).atoms;
    assert Make([]).atoms == [] && [] + later == later;
    StripCons(Star({}), Make(tail).atoms);
  }

  /** `(a+b)*` contains `(a+ε) · b* · a* · b*`. */
  lemma WorkedExampleMixedStars()
    ensures Contains(Product([Star({"a", "b"})]),
                     Make([AtomItem(Letter("a")), AtomItem(Star({"b"})), AtomItem(Star({"a"})), AtomItem(Star({"b"}))]))
  {
    var abStar := Star({"a", "b"});
    MixedStarsStripped();
    MixedStarsDecided();
    assert "a" in abStar.msgs;
    assert NoEmptyStar([abStar]);
    StripKeepsClean([abStar]);
  }

  /** The head/tail recursion swallows `(a+ε) · b* · a* · b*` atom by atom
      into `(a+b)*`. */
  lemma MixedStarsDecided()
    ensures Decide([Star({"a", "b"})], [Letter("a"), Star({"b"}), Star({"a"}), Star({"b"})])
  {
    var aLetter, aStar, bStar, abStar := Letter("a"), Star({"a"}), Star({"b"}), Star({"a", "b"});
    var p := [abStar];
    assert Decide(p, []);
    StarSwallowsHead(p, bStar, []);
    assert [bStar] + [] == [bStar];
    StarSwallowsHead(p, aStar, [bStar]);
    assert [aStar] + [bStar] == [aStar, bStar];
    StarSwallowsHead(p, bStar, [aStar, bStar]);
    assert [bStar] + [aStar, bStar] == [bStar, aStar, bStar];
    StarSwallowsHead(p, aLetter, [bStar, aStar, bStar]);
    assert [aLetter] + [bStar, aStar, bStar] == [aLetter, bStar, aStar, bStar];
  }

  /** The product `(a+ε) · b* · a* · b*` is built atom by atom and has no star
      over no message. */
  lemma MixedStarsStripped()
    ensures var s := [Letter("a"), Star({"b"}), Star({"a"}), Star({"b"})];
      Strip(Make([AtomItem(Letter("a")), AtomItem(Star({"b"})), AtomItem(Star({"a"})), AtomItem(Star({"b"}))]).atoms) == s
  {
    var aLetter, aStar, bStar := Letter("a"), Star({"a"}), Star({"b"});
    var s := [aLetter, bStar, aStar, bStar];
    MixedStarsBuilt();
    assert "a" in aStar.msgs && "b" in bStar.msgs;
    assert NoEmptyStar(s);
    StripKeepsClean(s);
  }

  lemma MixedStarsBuilt()
    ensures Make([AtomItem(Letter("a")), AtomItem(Star({"b"})), AtomItem(Star({"a"})), AtomItem(Star({"b"}))]).atoms
         == [Letter("a"), Star({"b"}), Star({"a"}), Star({"b"})]
  {
    var aLetter, aStar, bStar := Letter("a"), Star({"a"}), Star({"b"});
    MakeCons(AtomItem(aLetter), [AtomItem(bStar), AtomItem(aStar), AtomItem(bStar)]);
    MakeCons(AtomItem(bStar), [AtomItem(aStar), AtomItem(bStar)]);
    MakeCons(AtomItem(aStar), [AtomItem(bStar)]);
    MakeCons(AtomItem(bStar), []);
  }

  /** `a*` does not contain `(a+ε) · (a+b)* · (b+ε)`. */
  lemma WorkedExampleNotContained()
    ensures !Contains(Product([Star({"a"})]),
                      Make([AtomItem(Letter("a")), AtomItem(Star({"a", "b"})), AtomItem(Letter("b"))]))
  {
    var aLetter, bLetter, aStar, abStar := Letter("a"), Letter("b"), Star({"a"}), Star({"a", "b"});
    MakeCons(AtomItem(aLetter), [AtomItem(abStar), AtomItem(bLetter)]);
    MakeCons(AtomItem(abStar), [AtomItem(bLetter)]);
    MakeCons(AtomItem(bLetter), []);
    var s := [aLetter, abStar, bLetter];
    assert s[1..] == [abStar, bLetter] && s[1..][1..] == [bLetter] && s[1..][1..][1..] == [];
    assert {"a", "b"} != {} by { assert "a" in {"a", "b"}; }
    StripCons(aLetter, [abStar, bLetter]);
    StripCons(abStar, [bLetter]);
    StripCons(bLetter, []);
    assert Strip(s) == s;
    assert "b" !in {"a"};
    assert !Atoms.Contains(aStar, abStar);
    assert !Decide([], s[1..]);
    assert !Decide([aStar], s[1..]);
  }

  /** The examples the product tests leave open, decided by the model: the
      empty product is contained in `a+ε` and `a*` but contains neither. */
  lemma OpenExamples()
    ensures Contains(Product([Letter("a")]), Product([]))
    ensures Contains(Product([Star({"a"})]), Product([]))
    ensures !Contains(Product([]), Product([Letter("a")]))
    ensures !Contains(Product([]), Product([Star({"a"})]))
    ensures !Contains(Product([]), Product([Star({"a", "b"})]))
  {
  }
}
