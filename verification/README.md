# Simple regular expressions and their entailment

This project models the core of `sre`, a small Python library for simple
regular expressions (SREs). These expressions describe the contents of lossy
FIFO channels. The library has four kinds of value:

- A **letter atom** `a+ε` denotes the words ε and `a`.
- A **star atom** `(p1+…+pn)*` denotes every finite word over its messages.
  With no message it denotes only ε.
- A **product** is a concatenation of atoms.
- An **SRE** is a finite union of products.

The model defines these values and their construction rules, including the
error cases. It also defines the entailment (`contains`) and absorption
(`absorbs`) operations that the library's tests pin down. Entailment follows
Lemma 4.1 of Abdulla, Collomb-Annichini, Bouajjani and Jonsson (2004):
a case split on atoms, and a head/tail recursion on products.

Beyond the facts the tests state, the model gives a word-membership
semantics in `Languages` and proves the entailment operations against it:

- Atom entailment is exactly language inclusion.
- Absorption is exactly "concatenating the other atom changes nothing".
- The product recursion is sound, and it is complete whenever the right side
  holds no star over no message. `Products.Contains` removes those stars
  first, so product entailment is exactly language inclusion.
- SRE entailment is sound.

Modules, one file each:

- `Results` (`results.dfy`): the `TypeError`/`ValueError` outcomes of the
  constructors.
- `Atoms` (`atoms.dfy`): atoms, their constructors, entailment and absorption.
- `Languages` (`languages.dfy`): the word semantics of atoms and
  concatenations.
- `Products` (`products.dfy`): products, flattening construction, the
  head/tail recursion and the test examples.
- `ProductSemantics` (`product_semantics.dfy`): soundness and completeness of
  product entailment.
- `Sres` (`sres.dfy`): SREs and their entailment.
- `Alphabets` (`alphabets.dfy`): the validated alphabet of `models.py`.

Message validity follows a grammar that the library imports but does not
show. Every atom constructor therefore takes the grammar as a parameter, a
`Validator` (a predicate on strings). The tests pin down only that the empty
string and all-digit strings are not messages. Lemmas that rely on this take
the hypothesis `RejectsDigitStrings(valid)`.

Choices where the code, its docstrings and its tests could be read more
than one way:

- A letter atom denotes {ε, a}, not {a}. The code documents it as `a+ε`
  (`code/sre/models.py:84`), and the tests require
  `LetterAtom(x).contains(StarAtom())`, which only holds when ε is a word of
  the letter atom.
- `code/sre/models.py` stores constructor arguments as given, and its atom
  constructors take one argument. The tests pass arguments as varargs, expect
  `TypeError`/`ValueError` on bad arguments and expect products to be
  flattened (`code/sre/tests/test_products.py:41-54`). The model follows the
  tests.

A consequence of rule (a) of the product recursion (skip a head atom that
cannot hold the other side's head): `(start+stop)* · (reset+ε)`, the product
built in `code/sre/tests/test_sre.py:8-12`, contains `reset+ε` alone, because
the loop cannot hold `reset`. `Products.ResetExample` proves this.

## Model

| member | source | states |
|---|---|---|
| Atoms.MakeLetter | code/sre/tests/test_atoms.py:23-77 | a letter atom is built exactly when one argument is given and it is a message; the atom then holds that one message; any other number of arguments is a `TypeError`, checked before validity; a single argument that is not a message is a `ValueError` |
| Atoms.LetterConstructionErrors | code/sre/tests/test_atoms.py:30-77 | no argument or two or more arguments fail with `TypeError`; a single empty or all-digit string fails with `ValueError` |
| Atoms.LetterHoldsItsMessage | code/sre/models.py:86-88 | a letter atom built from a valid message stores exactly that message |
| Atoms.MakeStar | code/sre/tests/test_atoms.py:79-137 | a star atom is built exactly when every argument is a message (zero arguments included); otherwise the error is `ValueError`; the atom holds the set of the arguments |
| Atoms.StarConstructionErrors | code/sre/tests/test_atoms.py:86-129 | no arguments build the star over no message, which has size 0; any empty or all-digit argument makes construction fail with `ValueError` |
| Atoms.StarIgnoresOrderAndDuplicates | code/sre/models.py:58-60 | two argument lists with the same elements build the same star atom, whatever their order or repetitions |
| Atoms.Contains | code/sre/tests/test_atoms.py:140-250 | the four cases of Lemma 4.1: star ⊒ star iff subset, star ⊒ letter iff membership, letter ⊒ letter iff equal, letter ⊒ star iff the star has no message |
| Languages.AtomContainsIsInclusion | code/sre/models.py:54-88 | atom entailment holds exactly when the language of the small atom (`a+ε` = {ε, a}, `S*` = S*) is included in that of the big one, in both directions |
| Atoms.ContainsReflexive | code/sre/tests/test_atoms.py:144-227 | two atoms built from the same messages contain each other, for stars and for letters |
| Atoms.EmptyStarLaws | code/sre/tests/test_atoms.py:155-174 | every star contains the star over no message; that star contains no star with a message |
| Atoms.StarMonotone | code/sre/tests/test_atoms.py:176-216 | `(x ∪ y)*` contains `x*`; `x*` does not contain `z*` for a strict superset `z` |
| Atoms.MixedKinds | code/sre/tests/test_atoms.py:229-250 | `x+ε` does not contain `x*`; `x*` contains `x+ε`; `x+ε` contains the star over no message |
| Atoms.Absorbs | code/sre/tests/test_atoms.py:253-281 | a letter atom absorbs only the star over no message; a star absorbs exactly the atoms whose messages it has |
| Languages.AbsorbsIsIdempotentConcat | code/sre/tests/test_atoms.py:253-281 | `e` absorbs `other` exactly when `e · other` and `e` denote the same language |
| Atoms.AbsorptionFacts | code/sre/tests/test_atoms.py:254-281 | `x+ε` absorbs neither itself nor an equal letter but absorbs the star over no message; `x*` absorbs `x+ε`; `(x+y)*` absorbs `x*` |
| Atoms.StarAbsorbsWhatItContains | code/sre/tests/test_atoms.py:269-281 | a star atom absorbs exactly the atoms it contains |
| Products.Make | code/sre/tests/test_products.py:41-54 | the atoms of a built product are exactly the atoms given, together with the atoms of the products given |
| Products.MakeFromAtoms | code/sre/models.py:117-123 | a product built from atoms alone keeps exactly those atoms, in order |
| Products.MakeAppend | code/sre/models.py:117-123 | building from two argument lists in turn concatenates the two products, so argument order is preserved |
| Products.MakeSplicesProducts | code/sre/tests/test_products.py:41-54 | `Product(Product(e1), e2)` has the atoms `e1, e2`, not a nested product |
| Products.MakeFlattensNested | code/sre/tests/test_products.py:41-54 | a product given as the first argument is spliced in place: the result equals the product built from the concatenated argument lists |
| Products.Strip | code/sre/tests/test_products.py:119-127 | the result has no star over no message and keeps every other atom |
| Products.StripKeepsClean | code/sre/tests/test_products.py:119-127 | a sequence without stars over no message is left unchanged |
| Products.StripKeepsMessages | code/sre/tests/test_products.py:119-127 | removing stars over no message loses no message |
| ProductSemantics.StripKeepsLanguage | code/sre/tests/test_products.py:119-127 | removing stars over no message leaves the language unchanged, so they act as ε |
| Products.Decide | code/sre/tests/test_products.py:57-127 | when the head/tail recursion accepts, every message of the right side occurs on the left |
| ProductSemantics.DecideSound | code/sre/tests/test_products.py:57-127 | when the recursion accepts, the right side's language is included in the left side's |
| ProductSemantics.DecideIsInclusion | code/sre/tests/test_products.py:57-127 | when the right side has no star over no message, the recursion accepts exactly when the languages are included, in both directions |
| Products.Contains | code/sre/tests/test_products.py:57-127 | when product entailment holds, the messages of the small product occur in the big one |
| ProductSemantics.ContainsIsInclusion | code/sre/tests/test_products.py:57-127 | product entailment holds exactly when the small product's language is included in the big one's |
| ProductSemantics.ContainsTransitive | code/sre/tests/test_products.py:57-127 | product entailment is transitive |
| Products.ProductMessages | code/sre/tests/test_operations.py:16-17 | the messages of a product are exactly those mentioned by one of its atoms; the empty product has none |
| ProductSemantics.MessagesOccurInWords | code/sre/models.py:113-123 | a message is mentioned by a product exactly when it occurs in some word of the product's language |
| Products.ContainsReflexive | code/sre/tests/test_products.py:58-65 | every product contains itself |
| Products.EmptyProductLaws | code/sre/tests/test_products.py:67-73 | every product contains the empty product; the empty product does not contain a product over a star with some message |
| Products.StartStopExample | code/sre/tests/test_products.py:75-82 | `(start+stop)*` contains `start*` |
| Products.StarProductMonotone | code/sre/tests/test_products.py:84-117 | the one-star product `z*` contains `x*` exactly when `x ⊆ z` |
| Products.EmptyStarIsEpsilon | code/sre/tests/test_products.py:119-127 | the product of the star over no message and the empty product contain each other |
| Products.WorkedExampleEpsilon | code/sre/tests/test_products.py:152-156 | ε contains `∅* · ∅*` but not `(a+ε) · (a+ε)` |
| Products.WorkedExampleLetter | code/sre/tests/test_products.py:158 | `a+ε` contains `∅* · ε · (a+ε) · ∅*` |
| Products.WorkedExampleStarSwallows | code/sre/tests/test_products.py:160-161 | `a*` contains `(a+ε) · a*` and `(a+ε) · ε · ∅* · (a+ε) · a*` |
| Products.WorkedExampleMixedStars | code/sre/tests/test_products.py:162 | `(a+b)*` contains `(a+ε) · b* · a* · b*` |
| Products.WorkedExampleNotContained | code/sre/tests/test_products.py:163 | `a*` does not contain `(a+ε) · (a+b)* · (b+ε)` |
| Products.OpenExamples | code/sre/tests/test_products.py:142-151 | the cases marked open are settled: `a+ε` and `a*` contain ε, and ε contains none of `a+ε`, `a*`, `(a+b)*` |
| Products.ResetExample | code/sre/tests/test_sre.py:8-12 | with the values built at these lines, the product `(start+stop)* · (reset+ε)` contains `reset+ε`, by rule (a) of the recursion |
| Sres.Make | code/sre/models.py:130-136 | the products of a built SRE are exactly the products given |
| Sres.MakeIgnoresOrderAndDuplicates | code/sre/models.py:130-136 | argument lists with the same products build the same SRE, so repeated products collapse |
| Sres.ConstructionExamples | code/sre/tests/test_sre.py:7-25 | the SREs of the creation tests can be built, including one holding both `Product()` and `Product(StarAtom())` as two distinct products |
| Sres.Contains | code/sre/tests/test_sre.py:28-42 | every product on the right is contained in some product on the left; so the empty SRE is contained in every SRE, a non-empty SRE only in a non-empty one, and entailment keeps messages |
| Sres.SreMessages | code/sre/tests/test_operations.py:16-17 | the messages of an SRE are exactly those of its products |
| Sres.ContainsIsProductwiseInclusion | code/sre/tests/test_sre.py:28-42 | SRE entailment holds exactly when every product on the right has its language included in that of some product on the left |
| Sres.ContainsIsSound | code/sre/tests/test_sre.py:28-42 | when SRE entailment holds, every word of the small SRE is a word of the big one |
| Sres.ContainsKeepsMessages | code/sre/tests/test_sre.py:28-42 | when SRE entailment holds, the messages of the small SRE occur in the big one |
| Sres.ContainsReflexive | code/sre/tests/test_sre.py:37-38 | every SRE contains itself |
| Sres.ContainsTransitive | code/sre/tests/test_sre.py:28-42 | SRE entailment is transitive |
| Sres.EmptySreLaws | code/sre/tests/test_sre.py:39-42 | every SRE contains the empty SRE; the empty SRE contains exactly the empty SRE |
| Sres.SingletonContains | code/sre/tests/test_sre.py:29-38 | between one-product SREs, entailment is product entailment |
| Sres.ContainmentExample | code/sre/tests/test_sre.py:29-42 | `SRE(Product(start*))` and its copy contain each other and the empty SRE, which contains neither |
| Sres.EmptyStarExample | code/sre/tests/test_sre.py:18-23 | with the product of the star over no message built at these lines, the SRE of `a*` contains the SRE of that product, but not the other way round |
| Alphabets.HasLetter | code/sre/models.py:26-34 | true exactly when the letter is in the stored set; in a valid alphabet every such letter is alphabetic |
| Alphabets.New | code/sre/models.py:16-34 | an alphabet is built exactly when every given letter is alphabetic, otherwise `TypeError`; the alphabet is then valid (only alphabetic letters) and has a letter exactly when it was given, whatever the order or repetitions |

## Left out

- `print` methods (`code/sre/models.py:36-37`, `78-79`, `109-110`): console output.
- The `TypeError` raised on instantiating the abstract `Atom`, and the runtime checks on `Product` arguments: Dafny's types rule out both.
- The message grammar `ALLOWED_MESSAGES`: it is not part of this model. It becomes the `Validator` parameter, constrained only by `RejectsDigitStrings`.
- `read` and `write` from `code/sre/tests/test_operations.py`: no file of the library defines them, so their meaning is not inferred. `messages` is modelled as the union of the atoms' messages (`Products.ProductMessages`, `Sres.SreMessages`).
- Normalisation (`is_normal`, `normalize`): no file of the library defines them.
- `code/sre/iterators.py`: an iteration wrapper whose order depends on Python's set ordering.
- `code/models.py`, `main.py` and the tests under `code/sre/test/` other than the alphabet test: earlier revisions of the same data model.
- Alphabets.New: the model recognises only the ASCII letters as alphabetic, where Python's `str.isalpha` also accepts other Unicode letters.
- Alphabets.New: the model takes the letters as a sequence of strings. Python also iterates a plain string character by character.
- Sres.Contains: entailment between SREs is proved sound and equal to productwise inclusion, but not complete for language inclusion. Completeness would need the fact that a product's language included in a union lies within one member.
- The SRE constructor in the model takes products only; the tests never pass it atoms.
- Memoisation and performance: the model decides entailment by plain recursion.
