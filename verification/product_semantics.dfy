/** Correctness of product entailment against the word semantics: the
    head/tail recursion holds exactly when the language of the right side
    is included in the language of the left side. */
module ProductSemantics {
  import opened Atoms
  import opened Languages
  import opened Products

  // Building blocks about the first atom of a concatenation.

  /** Replacing the head by a larger atom and the tail by a larger
      concatenation gives a larger language. */
  lemma ConsMonotone(p: seq<Atom>, q: seq<Atom>)
    requires p != [] && q != []
    requires AtomIncludes(p[0], q[0]) && Includes(p[1..], q[1..])
    ensures Includes(p, q)
  {
    forall w | InAtoms(w, q) ensures InAtoms(w, p) {
      Unfold(w, q);
      var k :| 0 <= k <= |w| && SplitAt(w, q, k);
      Prepend(w[..k], w[k..], p);
      assert w[..k] + w[k..] == w;
    }
  }

  /** A star head may swallow the head of the right side and stay available
      for the rest of it. */
  lemma StarHeadSwallows(p: seq<Atom>, q: seq<Atom>)
    requires p != [] && q != [] && p[0].Star?
    requires AtomIncludes(p[0], q[0]) && Includes(p, q[1..])
    ensures Includes(p, q)
  {
    forall w | InAtoms(w, q) ensures InAtoms(w, p) {
      Unfold(w, q);
      var k :| 0 <= k <= |w| && SplitAt(w, q, k);
      StarHeadSwallowsWord(p, w[..k], w[k..]);
      assert w[..k] + w[k..] == w;
    }
  }

  lemma StarHeadSwallowsWord(p: seq<Atom>, u: Word, v: Word)
    requires p != [] && p[0].Star?
    requires InAtom(u, p[0]) && InAtoms(v, p)
    ensures InAtoms(u + v, p)
  {
    Unfold(v, p);
    var j :| 0 <= j <= |v| && SplitAt(v, p, j);
    StarConcat(u, v[..j], p[0].msgs);
    Prepend(u + v[..j], v[j..], p);
    assert (u + v[..j]) + v[j..] == u + v;
  }

  /** A star over no message at the head contributes nothing. */
  lemma EmptyStarHead(s: seq<Atom>)
    requires s != [] && s[0] == Star({})
    ensures SameLanguage(s, s[1..])
  {
    TailIncluded(s);
    forall w | InAtoms(w, s) ensures InAtoms(w, s[1..]) {
      Unfold(w, s);
      var k :| 0 <= k <= |w| && SplitAt(w, s, k);
      StarWordNeedsMessages(w[..k], {});
      assert w[k..] == w;
    }
  }

  /** Dropping the stars over no message keeps the language. */
  lemma {:induction false} StripKeepsLanguage(s: seq<Atom>)
    ensures SameLanguage(Strip(s), s)
    decreases |s|
  {
    if s != [] {
      StripKeepsLanguage(s[1..]);
      if s[0] == Star({}) {
        EmptyStarHead(s);
      } else {
        var r := Strip(s);
        assert r == [s[0]] + Strip(s[1..]);
        assert r[0] == s[0] && r[1..] == Strip(s[1..]);
        ConsMonotone(r, s);
        ConsMonotone(s, r);
      }
    }
  }

  /** Every message of a word of an atom is a message of the atom. */
  lemma AtomWordMessages(u: Word, e: Atom)
    requires InAtom(u, e)
    ensures forall i :: 0 <= i < |u| ==> u[i] in Messages(e)
  {
  }

  /** A non-empty prefix that is a word of an atom starts with a message
      of that atom. */
  lemma FirstMessage(w: Word, k: nat, e: Atom)
    requires k <= |w| && InAtom(w[..k], e)
    ensures k > 0 ==> w[0] in Messages(e)
  {
    if k > 0 {
      assert w[..k][0] == w[0];
    }
  }

  /** When the head atom of `p` is a letter atom, losing one message of the
      word is enough for the tail of `p` to hold it. */
  lemma LetterHeadTail(c: Message, t: Word, p: seq<Atom>)
    requires p != [] && p[0].Letter?
    requires InAtoms([c] + t, p)
    ensures InAtoms(t, p[1..])
  {
    var w := [c] + t;
    Unfold(w, p);
    var k :| 0 <= k <= |w| && SplitAt(w, p, k);
    assert |w[..k]| <= 1;
    if k == 0 {
      assert w[0..] == w;
      DropFirst(c, t, p[1..]);
    } else {
      assert w[1..] == t;
    }
  }

  /** A head atom that never mentions `b` cannot consume a leading `b`. */
  lemma BlockedHead(b: Message, t: Word, p: seq<Atom>)
    requires p != [] && b !in Messages(p[0])
    requires InAtoms([b] + t, p)
    ensures InAtoms([b] + t, p[1..])
  {
    var w := [b] + t;
    Unfold(w, p);
    var k :| 0 <= k <= |w| && SplitAt(w, p, k);
    FirstMessage(w, k, p[0]);
    assert w[0] == b;
    assert k == 0;
    assert w[0..] == w;
  }

  /** The empty product holds only ε, which a sequence starting with a
      non-empty atom exceeds. */
  lemma EmptyLeftMisses(q: seq<Atom>)
    requires q != [] && q[0] != Star({})
    ensures !Includes([], q)
  {
    var a :| a in Messages(q[0]);
    assert a in Messages(q[0]);
    var w: Word := [a];
    assert w[0] == a;
    if q[0].Letter? {
      assert a == q[0].msg;
    } else {
      assert a in q[0].msgs;
    }
    assert InAtom(w, q[0]);
    SingletonWord(a, q);
  }

  // Completeness steps, one per rule of the recursion.

  /** Rule (a): if the head of `p` does not contain the head of `q`, the
      head of `p` is of no use and the tail of `p` holds all of `q`. */
  lemma SkipHead(p: seq<Atom>, q: seq<Atom>)
    requires p != [] && q != [] && q[0] != Star({})
    requires !Atoms.Contains(p[0], q[0])
    requires Includes(p, q)
    ensures Includes(p[1..], q)
  {
    forall w | InAtoms(w, q) ensures InAtoms(w, p[1..]) {
      Unfold(w, q);
      var k :| 0 <= k <= |w| && SplitAt(w, q, k);
      assert w[..k] + w[k..] == w;
      if p[0].Letter? && q[0].Star? {
        SkipLetterHead(p, q, w[..k], w[k..]);
      } else {
        var b :| b in Messages(q[0]) && b !in Messages(p[0]);
        SkipBlockedHead(p, q, w[..k], w[k..], b);
      }
    }
  }

  /** A letter head of `p` takes at most one message of a word whose head
      part comes from a non-empty star. */
  lemma SkipLetterHead(p: seq<Atom>, q: seq<Atom>, u: Word, v: Word)
    requires p != [] && q != [] && p[0].Letter? && q[0].Star? && q[0] != Star({})
    requires Includes(p, q)
    requires InAtom(u, q[0]) && InAtoms(v, q[1..])
    ensures InAtoms(u + v, p[1..])
  {
    var e1 := q[0];
    var c :| c in e1.msgs;
    var z := [c] + u;
    assert InAtom(z, e1) by {
      forall i | 0 <= i < |z| ensures z[i] in e1.msgs {
        if i > 0 { assert z[i] == u[i - 1]; }
      }
    }
    Prepend(z, v, q);
    assert z + v == [c] + (u + v);
    LetterHeadTail(c, u + v, p);
  }

  /** A head of `p` that lacks a message `b` of the head of `q` consumes
      nothing of a word that starts with `b`. */
  lemma SkipBlockedHead(p: seq<Atom>, q: seq<Atom>, u: Word, v: Word, b: Message)
    requires p != [] && q != []
    requires b in Messages(q[0]) && b !in Messages(p[0])
    requires Includes(p, q)
    requires InAtom(u, q[0]) && InAtoms(v, q[1..])
    ensures InAtoms(u + v, p[1..])
  {
    if q[0].Letter? {
      SkipBlockedLetter(p, q, u, v);
    } else {
      SkipBlockedStar(p, q, u, v, b);
    }
  }

  lemma SkipBlockedLetter(p: seq<Atom>, q: seq<Atom>, u: Word, v: Word)
    requires p != [] && q != [] && q[0].Letter? && q[0].msg !in Messages(p[0])
    requires Includes(p, q)
    requires InAtom(u, q[0]) && InAtoms(v, q[1..])
    ensures InAtoms(u + v, p[1..])
  {
    var b := q[0].msg;
    assert InAtom([b], q[0]);
    Prepend([b], v, q);
    BlockedHead(b, v, p);
    if u == [] {
      DropFirst(b, v, p[1..]);
      assert u + v == v;
    } else {
      assert u == [b];
    }
  }

  lemma SkipBlockedStar(p: seq<Atom>, q: seq<Atom>, u: Word, v: Word, b: Message)
    requires p != [] && q != [] && q[0].Star?
    requires b in q[0].msgs && b !in Messages(p[0])
    requires Includes(p, q)
    requires InAtom(u, q[0]) && InAtoms(v, q[1..])
    ensures InAtoms(u + v, p[1..])
  {
    var z := [b] + u;
    assert InAtom(z, q[0]) by {
      forall i | 0 <= i < |z| ensures z[i] in q[0].msgs {
        if i > 0 { assert z[i] == u[i - 1]; }
      }
    }
    Prepend(z, v, q);
    assert z + v == [b] + (u + v);
    BlockedHead(b, u + v, p);
    DropFirst(b, u + v, p[1..]);
  }

  /** Rule (b) with two letter heads: the tail of `p` holds the tail of `q`. */
  lemma LetterHeads(p: seq<Atom>, q: seq<Atom>)
    requires p != [] && q != [] && p[0].Letter? && q[0].Letter?
    requires Includes(p, q)
    ensures Includes(p[1..], q[1..])
  {
    forall v | InAtoms(v, q[1..]) ensures InAtoms(v, p[1..]) {
      var c := q[0].msg;
      assert InAtom([c], q[0]);
      Prepend([c], v, q);
      LetterHeadTail(c, v, p);
    }
  }

  /** The recursion is sound: whatever it decides to be entailed is included
      in the language of the left side. */
  lemma {:induction false} DecideSound(p: seq<Atom>, q: seq<Atom>)
    requires Decide(p, q)
    ensures Includes(p, q)
    decreases |p| + |q|
  {
    if p == q {
    } else if q == [] {
      EmptyWordInAtoms(p);
    } else if p != [] {
      var e2, p2, e1, p1 := p[0], p[1..], q[0], q[1..];
      AtomContainsIsInclusion(e2, e1);
      if !Atoms.Contains(e2, e1) && Decide(p2, q) {
        DecideSound(p2, q);
        TailIncluded(p);
        IncludesTransitive(p, p2, q);
      } else if e1.Letter? && Atoms.Contains(e2, e1) && Decide(p2, p1) {
        DecideSound(p2, p1);
        ConsMonotone(p, q);
      } else {
        DecideSound(p, p1);
        StarHeadSwallows(p, q);
      }
    }
  }

  /** The recursion decides inclusion: once the right side has no star over
      no message, it holds exactly when the language of the right side is
      included in that of the left side. */
  lemma {:induction false} DecideIsInclusion(p: seq<Atom>, q: seq<Atom>)
    requires NoEmptyStar(q)
    ensures Decide(p, q) <==> Includes(p, q)
    decreases |p| + |q|
  {
    if Decide(p, q) {
      DecideSound(p, q);
    }
    if p != q && q != [] {
      assert q[0] != Star({});
      if p == [] {
        EmptyLeftMisses(q);
      } else if Includes(p, q) {
        var e2, p2, e1, p1 := p[0], p[1..], q[0], q[1..];
        assert NoEmptyStar(p1) by {
          forall i | 0 <= i < |p1| ensures p1[i] != Star({}) {
            assert p1[i] == q[i + 1];
          }
        }
        if !Atoms.Contains(e2, e1) {
          SkipHead(p, q);
          DecideIsInclusion(p2, q);
        } else if e2.Star? {
          TailIncluded(q);
          IncludesTransitive(p, q, p1);
          DecideIsInclusion(p, p1);
        } else {
          assert e1.Letter?;
          LetterHeads(p, q);
          DecideIsInclusion(p2, p1);
        }
      }
    } else {
      EmptyWordInAtoms(p);
    }
  }

  /** Product entailment is language inclusion, in both directions. */
  lemma ContainsIsInclusion(big: Product, small: Product)
    ensures Products.Contains(big, small) <==> Includes(big.atoms, small.atoms)
  {
    StripKeepsLanguage(big.atoms);
    StripKeepsLanguage(small.atoms);
    DecideIsInclusion(Strip(big.atoms), Strip(small.atoms));
  }

  /** Entailment between products is transitive. */
  lemma ContainsTransitive(a: Product, b: Product, c: Product)
    requires Products.Contains(a, b) && Products.Contains(b, c)
    ensures Products.Contains(a, c)
  {
    ContainsIsInclusion(a, b);
    ContainsIsInclusion(b, c);
    ContainsIsInclusion(a, c);
  }

  /** A message of any atom can be heard on its own: the one-message word is
      a word of the whole concatenation. */
  lemma {:induction false} MessageWord(s: seq<Atom>, i: nat, m: Message)
    requires i < |s| && m in Messages(s[i])
    ensures InAtoms([m], s)
    decreases i
  {
    if i == 0 {
      var w: Word := [m];
      assert w[0] == m;
      if s[0].Letter? { assert m == s[0].msg; } else { assert m in s[0].msgs; }
      assert InAtom(w, s[0]);
      SingletonWord(m, s);
    } else {
      assert s[1..][i - 1] == s[i];
      MessageWord(s[1..], i - 1, m);
      EmptyWordInAtom(s[0]);
      Prepend([], [m], s);
      assert [] + [m] == [m];
    }
  }

  /** Every message of a word of a concatenation is a message of one of its
      atoms. */
  lemma {:induction false} WordMessages(w: Word, s: seq<Atom>, m: Message)
    requires InAtoms(w, s) && m in w
    ensures m in AtomsMessages(s)
    decreases |s|
  {
    Unfold(w, s);
    var k :| 0 <= k <= |w| && SplitAt(w, s, k);
    var j :| 0 <= j < |w| && w[j] == m;
    if j < k {
      assert w[..k][j] == m;
      AtomWordMessages(w[..k], s[0]);
    } else {
      assert w[k..][j - k] == m;
      WordMessages(w[k..], s[1..], m);
    }
  }

  /** The messages of a product are exactly the messages occurring in the
      words of its language. */
  lemma MessagesOccurInWords(p: Product, m: Message)
    ensures m in ProductMessages(p) <==> exists w :: InAtoms(w, p.atoms) && m in w
  {
    if m in ProductMessages(p) {
      var i :| 0 <= i < |p.atoms| && m in Messages(p.atoms[i]);
      MessageWord(p.atoms, i, m);
      var w: Word := [m];
      assert m in w;
    }
    if exists w :: InAtoms(w, p.atoms) && m in w {
      var w :| InAtoms(w, p.atoms) && m in w;
      WordMessages(w, p.atoms, m);
    }
  }
}
