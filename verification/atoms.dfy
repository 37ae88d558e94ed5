/** Atoms of a simple regular expression: the letter atom `a+ε` and the
    star atom `(p1+...+pn)*`, with their construction, entailment and
    absorption rules. */
module Atoms {
  import opened Results

  type Message = string

  /** Decides which strings are acceptable messages. The message grammar
      itself is not part of this model; the facts the tests rely on are
      stated by `RejectsDigitStrings`. */
  type Validator = Message -> bool

  /** True of the empty string and of every string made only of digits. */
  predicate DigitsOnly(m: Message) {
    forall i :: 0 <= i < |m| ==> '0' <= m[i] <= '9'
  }

  /** The facts about the message grammar that the tests pin down: neither
      the empty string nor a string of digits is a message. */
  ghost predicate RejectsDigitStrings(valid: Validator) {
    forall m :: DigitsOnly(m) ==> !valid(m)
  }

  /** `Letter(a)` is the atom `a+ε`; `Star(s)` is the atom `s*`, where the
      set `s` may be empty. */
  datatype Atom = Letter(msg: Message) | Star(msgs: set<Message>)

  /** The set of messages an atom mentions. */
  function Messages(e: Atom): (r: set<Message>)
    ensures e.Letter? ==> r == {e.msg}
    ensures e.Star? ==> r == e.msgs
  {
    match e
    case Letter(a) => {a}
    case Star(s) => s
  }

  /** The set of the elements of a sequence. */
  function Elements<T(!new)>(xs: seq<T>): (r: set<T>)
    ensures forall x :: x in r <==> x in xs
  {
    set x | x in xs
  }

  /** Builds a letter atom from the arguments given to the constructor:
      exactly one argument is required (otherwise `TypeError`), and it must
      be a message (otherwise `ValueError`). */
  function MakeLetter(args: seq<Message>, valid: Validator): (r: Result<Atom>)
    ensures r.Ok? <==> |args| == 1 && valid(args[0])
    ensures r.Ok? ==> r.value.Letter? && Messages(r.value) == Elements(args)
    ensures |args| != 1 ==> r == Err(TypeError)
    ensures |args| == 1 && !valid(args[0]) ==> r == Err(ValueError)
  {
    if |args| != 1 then Err(TypeError)
    else if !valid(args[0]) then Err(ValueError)
    else Ok(Letter(args[0]))
  }

  /** Builds a star atom from zero or more messages; any argument that is
      not a message is a `ValueError`. */
  function MakeStar(args: seq<Message>, valid: Validator): (r: Result<Atom>)
    ensures r.Ok? <==> forall i :: 0 <= i < |args| ==> valid(args[i])
    ensures r.Err? ==> r.error == ValueError
    ensures r.Ok? ==> r.value.Star? && Messages(r.value) == Elements(args)
  {
    if forall i :: 0 <= i < |args| ==> valid(args[i]) then Ok(Star(Elements(args)))
    else Err(ValueError)
  }

  /** `Contains(big, small)`: the language of `small` is included in the
      language of `big`. A letter atom contains a star atom only when the
      star is over no message; otherwise the messages of `small` must be
      among those of `big`. The four cases are those of Lemma 4.1 of
      Abdulla, Collomb-Annichini, Bouajjani and Jonsson (2004). */
  function Contains(big: Atom, small: Atom): (r: bool)
    ensures big.Star? && small.Star? ==> (r <==> small.msgs <= big.msgs)
    ensures big.Star? && small.Letter? ==> (r <==> small.msg in big.msgs)
    ensures big.Letter? && small.Letter? ==> (r <==> small.msg == big.msg)
    ensures big.Letter? && small.Star? ==> (r <==> small.msgs == {})
  {
    if big.Letter? && small.Star? then small.msgs == {}
    else Messages(small) <= Messages(big)
  }

  /** `Absorbs(e, other)`: concatenating `other` next to `e` does not change
      the language of `e`. A letter atom absorbs only the star over no
      message; a star atom absorbs every atom whose messages it has. */
  function Absorbs(e: Atom, other: Atom): (r: bool)
    ensures e.Letter? ==> (r <==> other == Star({}))
    ensures e.Star? ==> (r <==> Messages(other) <= e.msgs)
  {
    match e
    case Letter(_) => other == Star({})
    case Star(s) => Messages(other) <= s
  }

  // Facts the construction tests state.

  /** A letter atom needs exactly one argument, and that argument must be a
      message: none, several, the empty string and digit strings all fail. */
  lemma LetterConstructionErrors(args: seq<Message>, valid: Validator)
    requires RejectsDigitStrings(valid)
    ensures |args| == 0 ==> MakeLetter(args, valid) == Err(TypeError)
    ensures |args| >= 2 ==> MakeLetter(args, valid) == Err(TypeError)
    ensures |args| == 1 && DigitsOnly(args[0]) ==> MakeLetter(args, valid) == Err(ValueError)
  {
  }

  /** A letter atom built from one message holds exactly that message. */
  lemma LetterHoldsItsMessage(m: Message, valid: Validator)
    requires valid(m)
    ensures MakeLetter([m], valid) == Ok(Letter(m))
    ensures Messages(MakeLetter([m], valid).value) == {m}
  {
    assert Elements([m]) == {m};
  }

  /** A star atom accepts zero arguments and then has no message; any digit
      string or empty string among the arguments makes it fail. */
  lemma StarConstructionErrors(args: seq<Message>, valid: Validator)
    requires RejectsDigitStrings(valid)
    ensures MakeStar([], valid) == Ok(Star({}))
    ensures |Messages(MakeStar([], valid).value)| == 0
    ensures (exists i :: 0 <= i < |args| && DigitsOnly(args[i])) ==> MakeStar(args, valid) == Err(ValueError)
  {
    assert Elements<Message>([]) == {};
  }

  /** The order and the repetition of a star atom's arguments are irrelevant:
      two argument lists with the same elements build the same atom. */
  lemma {:induction false} StarIgnoresOrderAndDuplicates(xs: seq<Message>, ys: seq<Message>, valid: Validator)
    requires forall m :: m in xs <==> m in ys
    ensures MakeStar(xs, valid) == MakeStar(ys, valid)
  {
    assert Elements(xs) == Elements(ys);
    if forall i :: 0 <= i < |xs| ==> valid(xs[i]) {
      forall j | 0 <= j < |ys| ensures valid(ys[j]) {
        assert ys[j] in xs;
      }
    } else {
      var i :| 0 <= i < |xs| && !valid(xs[i]);
      assert xs[i] in ys;
    }
  }

  // Facts the entailment and absorption tests state.

  /** Entailment is reflexive, so two atoms built from the same arguments
      contain each other. */
  lemma ContainsReflexive(e: Atom)
    ensures Contains(e, e)
  {
  }

  /** Every star atom contains the star over no message, and that star
      contains no other star. */
  lemma EmptyStarLaws(s: set<Message>)
    ensures Contains(Star(s), Star({}))
    ensures s != {} ==> !Contains(Star({}), Star(s))
  {
  }

  /** Star entailment is monotone in the message set, and strict supersets
      are never contained. */
  lemma StarMonotone(x: set<Message>, y: set<Message>)
    ensures Contains(Star(x + y), Star(x))
    ensures x < y ==> !Contains(Star(x), Star(y))
  {
  }

  /** Mixed kinds over one message: `x+ε` does not contain `x*`, `x*`
      contains `x+ε`, and `x+ε` contains the star over no message. */
  lemma MixedKinds(x: Message)
    ensures !Contains(Letter(x), Star({x}))
    ensures Contains(Star({x}), Letter(x))
    ensures Contains(Letter(x), Star({}))
  {
  }

  /** A letter atom absorbs neither itself nor an equal letter, but absorbs
      the star over no message; `x*` absorbs `x+ε` and `(x+y)*` absorbs `x*`. */
  lemma AbsorptionFacts(x: Message, y: Message)
    ensures !Absorbs(Letter(x), Letter(x))
    ensures Absorbs(Letter(x), Star({}))
    ensures Absorbs(Star({x}), Letter(x))
    ensures Absorbs(Star({x, y}), Star({x}))
  {
  }

  /** A star atom absorbs exactly the atoms it contains. */
  lemma StarAbsorbsWhatItContains(s: set<Message>, e: Atom)
    ensures Absorbs(Star(s), e) <==> Contains(Star(s), e)
  {
  }
}
