/** The word-membership semantics of atoms and of concatenations of atoms:
    `a+ε` denotes {ε, a}, `S*` denotes every finite word over S, and a
    sequence of atoms denotes the concatenation of their languages. */
module Languages {
  import opened Atoms

  type Word = seq<Message>

  /** Membership of a word in the language of one atom. */
  predicate InAtom(w: Word, e: Atom) {
    match e
    case Letter(a) => w == [] || w == [a]
    case Star(s) => forall i :: 0 <= i < |w| ==> w[i] in s
  }

  /** Membership of a word in the concatenation of the languages of a
      sequence of atoms: some prefix belongs to the first atom and the rest
      to the remaining atoms. */
  predicate InAtoms(w: Word, s: seq<Atom>)
    decreases |s|, 1
  {
    if s == [] then w == []
    else exists k :: 0 <= k <= |w| && SplitAt(w, s, k)
  }

  /** The first `k` messages of `w` are a word of the first atom of `s` and
      the rest a word of the remaining atoms. */
  predicate SplitAt(w: Word, s: seq<Atom>, k: int)
    decreases |s|, 0
  {
    s != [] && 0 <= k <= |w| && InAtom(w[..k], s[0]) && InAtoms(w[k..], s[1..])
  }

  /** A word of a non-empty concatenation splits after some prefix. */
  lemma Unfold(w: Word, s: seq<Atom>)
    requires s != [] && InAtoms(w, s)
    ensures exists k :: 0 <= k <= |w| && SplitAt(w, s, k)
  {
  }

  /** The language of `small` is included in the language of `big`. */
  ghost predicate AtomIncludes(big: Atom, small: Atom) {
    forall w :: InAtom(w, small) ==> InAtom(w, big)
  }

  /** The language of the concatenation `small` is included in that of `big`. */
  ghost predicate Includes(big: seq<Atom>, small: seq<Atom>) {
    forall w :: InAtoms(w, small) ==> InAtoms(w, big)
  }

  /** Two concatenations denote the same language. */
  ghost predicate SameLanguage(s: seq<Atom>, t: seq<Atom>) {
    Includes(s, t) && Includes(t, s)
  }

  lemma IncludesTransitive(a: seq<Atom>, b: seq<Atom>, c: seq<Atom>)
    requires Includes(a, b) && Includes(b, c)
    ensures Includes(a, c)
  {
  }

  /** Every atom denotes a language holding the empty word. */
  lemma EmptyWordInAtom(e: Atom)
    ensures InAtom([], e)
  {
  }

  /** Every concatenation of atoms holds the empty word. */
  lemma {:induction false} EmptyWordInAtoms(s: seq<Atom>)
    ensures InAtoms([], s)
    decreases |s|
  {
    if s != [] {
      EmptyWordInAtoms(s[1..]);
      var w: Word := [];
      assert w[..0] == [] && w[0..] == [];
      assert InAtom(w[..0], s[0]);
      assert SplitAt(w, s, 0);
    }
  }

  /** A word of the first atom followed by a word of the rest is a word of
      the concatenation. */
  lemma Prepend(u: Word, v: Word, s: seq<Atom>)
    requires s != []
    requires InAtom(u, s[0]) && InAtoms(v, s[1..])
    ensures InAtoms(u + v, s)
  {
    var w := u + v;
    assert w[..|u|] == u && w[|u|..] == v;
    assert SplitAt(w, s, |u|);
  }

  /** Dropping the head atom keeps only words of the tail, which the whole
      concatenation still holds. */
  lemma TailIncluded(s: seq<Atom>)
    requires s != []
    ensures Includes(s, s[1..])
  {
    forall w | InAtoms(w, s[1..]) ensures InAtoms(w, s) {
      Prepend([], w, s);
      assert [] + w == w;
    }
  }

  /** A star language is closed under concatenation. */
  lemma StarConcat(x: Word, y: Word, t: set<Message>)
    requires InAtom(x, Star(t)) && InAtom(y, Star(t))
    ensures InAtom(x + y, Star(t))
  {
    forall i | 0 <= i < |x + y| ensures (x + y)[i] in t {
      if i < |x| { assert (x + y)[i] == x[i]; } else { assert (x + y)[i] == y[i - |x|]; }
    }
  }

  /** Atom languages are closed under losing their first message. */
  lemma AtomDropFirst(c: Message, u: Word, e: Atom)
    requires InAtom([c] + u, e)
    ensures InAtom(u, e)
  {
    match e
    case Letter(a) => {
      assert |[c] + u| == 1;
    }
    case Star(s) => {
      forall i | 0 <= i < |u| ensures u[i] in s {
        assert u[i] == ([c] + u)[i + 1];
      }
    }
  }

  /** The language of a concatenation is closed under losing the first
      message of a word, as befits a channel that may lose messages. */
  lemma {:induction false} DropFirst(c: Message, w: Word, s: seq<Atom>)
    requires InAtoms([c] + w, s)
    ensures InAtoms(w, s)
    decreases |s|
  {
    var cw := [c] + w;
    Unfold(cw, s);
    var k :| 0 <= k <= |cw| && SplitAt(cw, s, k);
    if k == 0 {
      assert cw[0..] == cw;
      DropFirst(c, w, s[1..]);
      EmptyWordInAtom(s[0]);
      Prepend([], w, s);
      assert [] + w == w;
    } else {
      DropFirstOfHead(c, w, s, k);
    }
  }

  /** The case of `DropFirst` where the lost message belongs to the head
      atom's part of the word. */
  lemma DropFirstOfHead(c: Message, w: Word, s: seq<Atom>, k: nat)
    requires 0 < k <= |w| + 1
    requires SplitAt([c] + w, s, k)
    ensures InAtoms(w, s)
  {
    var cw := [c] + w;
    assert cw[..k] == [c] + w[..k - 1];
    assert cw[k..] == w[k - 1..];
    AtomDropFirst(c, w[..k - 1], s[0]);
    Prepend(w[..k - 1], w[k - 1..], s);
    assert w[..k - 1] + w[k - 1..] == w;
  }

  /** A one-message word of the head atom is a word of the concatenation. */
  lemma SingletonWord(a: Message, s: seq<Atom>)
    requires s != [] && InAtom([a], s[0])
    ensures InAtoms([a], s)
  {
    EmptyWordInAtoms(s[1..]);
    Prepend([a], [], s);
    assert [a] + [] == [a];
  }

  /** Atom entailment decides inclusion of atom languages, in both
      directions. */
  lemma AtomContainsIsInclusion(big: Atom, small: Atom)
    ensures Contains(big, small) <==> AtomIncludes(big, small)
  {
    if Contains(big, small) {
      forall w | InAtom(w, small) ensures InAtom(w, big) {
        match small
        case Letter(b) =>
        case Star(t) =>
          if big.Letter? {
            assert t == {};
            StarWordNeedsMessages(w, t);
          }
      }
    } else {
      match small
      case Letter(b) => {
        var w: Word := [b];
        assert w[0] == b;
        assert InAtom(w, small) && !InAtom(w, big);
      }
      case Star(t) => {
        if big.Letter? {
          var m :| m in t;
          assert InAtom([m, m], small) && !InAtom([m, m], big);
        } else {
          var m :| m in t && m !in big.msgs;
          var w: Word := [m];
          assert w[0] == m;
          assert InAtom(w, small) && !InAtom(w, big);
        }
      }
    }
  }

  /** A one-atom concatenation denotes the language of its atom. */
  lemma SingleAtom(w: Word, e: Atom)
    ensures InAtoms(w, [e]) <==> InAtom(w, e)
  {
    var one := [e];
    if InAtoms(w, one) {
      Unfold(w, one);
      var k :| 0 <= k <= |w| && SplitAt(w, one, k);
      assert one[1..] == [];
      assert InAtoms(w[k..], one[1..]);
      assert w[k..] == [];
      assert w[..k] == w;
    }
    if InAtom(w, e) {
      EmptyWordInAtoms(one[1..]);
      Prepend(w, [], one);
      assert w + [] == w;
    }
  }

  /** A two-atom concatenation denotes the words that split into a word of
      each atom. */
  lemma PairAtoms(w: Word, e: Atom, f: Atom)
    ensures InAtoms(w, [e, f]) <==> exists k :: 0 <= k <= |w| && InAtom(w[..k], e) && InAtom(w[k..], f)
  {
    var two := [e, f];
    assert two[1..] == [f];
    if InAtoms(w, two) {
      Unfold(w, two);
      var k :| 0 <= k <= |w| && SplitAt(w, two, k);
      SingleAtom(w[k..], f);
    }
    if exists k :: 0 <= k <= |w| && InAtom(w[..k], e) && InAtom(w[k..], f) {
      var k :| 0 <= k <= |w| && InAtom(w[..k], e) && InAtom(w[k..], f);
      SingleAtom(w[k..], f);
      assert SplitAt(w, two, k);
    }
  }

  /** The star over no message denotes only the empty word. */
  lemma StarWordNeedsMessages(w: Word, t: set<Message>)
    requires InAtom(w, Star(t))
    ensures w == [] || t != {}
  {
    if w != [] {
      assert w[0] in t;
    }
  }

  /** Absorption means that concatenating the other atom after this one
      leaves the language unchanged, in both directions. */
  lemma AbsorbsIsIdempotentConcat(e: Atom, other: Atom)
    ensures Absorbs(e, other) <==> SameLanguage([e, other], [e])
  {
    PairIncludesSingle(e, other);
    if Absorbs(e, other) {
      AbsorbedPairIncluded(e, other);
    } else {
      UnabsorbedPairWitness(e, other);
    }
  }

  /** `e` alone is included in `e` followed by any atom, which holds ε. */
  lemma PairIncludesSingle(e: Atom, other: Atom)
    ensures Includes([e, other], [e])
  {
    forall w | InAtoms(w, [e]) ensures InAtoms(w, [e, other]) {
      SingleAtom(w, e);
      PairAtoms(w, e, other);
      assert w[..|w|] == w && w[|w|..] == [];
      EmptyWordInAtom(other);
    }
  }

  lemma AbsorbedPairIncluded(e: Atom, other: Atom)
    requires Absorbs(e, other)
    ensures Includes([e], [e, other])
  {
    forall w | InAtoms(w, [e, other]) ensures InAtoms(w, [e]) {
      PairAtoms(w, e, other);
      var k :| 0 <= k <= |w| && InAtom(w[..k], e) && InAtom(w[k..], other);
      AbsorbedWord(w[..k], w[k..], e, other);
      assert w[..k] + w[k..] == w;
      SingleAtom(w, e);
    }
  }

  /** A word of `e` followed by a word of an atom `e` absorbs is a word of `e`. */
  lemma AbsorbedWord(u: Word, v: Word, e: Atom, other: Atom)
    requires Absorbs(e, other) && InAtom(u, e) && InAtom(v, other)
    ensures InAtom(u + v, e)
  {
    if e.Star? {
      AtomContainsIsInclusion(e, other);
      StarConcat(u, v, e.msgs);
    } else {
      StarWordNeedsMessages(v, {});
      assert u + [] == u;
    }
  }

  lemma UnabsorbedPairWitness(e: Atom, other: Atom)
    requires !Absorbs(e, other)
    ensures !Includes([e], [e, other])
  {
    var b :| b in Messages(other) && (e.Letter? || b !in e.msgs);
    var bw: Word := [b];
    assert b in Messages(other);
    assert bw[0] == b;
    if other.Letter? {
      assert b == other.msg;
    } else {
      assert forall i :: 0 <= i < |bw| ==> bw[i] in other.msgs;
    }
    assert InAtom(bw, other);
    if e.Letter? {
      var w: Word := [e.msg, b];
      assert w[..1] == [e.msg] && w[1..] == bw;
      PairAtoms(w, e, other);
      SingleAtom(w, e);
      assert InAtoms(w, [e, other]) && !InAtoms(w, [e]);
    } else {
      assert bw[..0] == [] && bw[0..] == bw;
      EmptyWordInAtom(e);
      PairAtoms(bw, e, other);
      SingleAtom(bw, e);
      assert InAtoms(bw, [e, other]) && !InAtoms(bw, [e]);
    }
  }
}
