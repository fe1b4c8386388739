# The semantic layer of the Toka compiler, in Dafny

A model of three connected parts of the compiler's semantic layer, and proofs about them:

1. **The type algebra** of `src/Type.cpp`: one recursive type with four attributes on every node, two
   printer/parser pairs, two name encoders, substitution, permission flow, and the handle grammar with
   its search through cyclic type graphs.
2. **The exact-place domain** of `include/toka/PlaceState.h`: which of Never, Live and Moved a local and
   up to 64 of its projections can be in, as `Scope` and the statement checker of `src/Sema` use it.
3. **Identity keys and graph walkers**: `NominalShapeId.h`, `SemanticModel.h`, `InterfaceBody.h` and the
   audit recorder of `HandleGrammarAudit.h`.

`dafny verify dfyconfig.toml` checks the whole project.

## How the model is laid out

| file | what it holds |
|---|---|
| `Text.dfy`, `Types.dfy` | decimal and hexadecimal spellings, length frames; the type tree and its attributes |
| `Identity.dfy`, `Mangling.dfy` | semantic equality, `canonicalIdentity`, `getMangledName` |
| `TypeString.dfy`, `TypeParser.dfy` | the string printer and the parsing functions; the parser as the loops it is |
| `StringRoundTrip.dfy`, `StringReach.dfy` | reading back what was printed; what the parser can return at all |
| `CallRoundTrip.dfy` | reading back callables and outcomes, and the spellings no printer writes |
| `TypeSyntax.dfy`, `SyntaxRoundTrip.dfy` | type syntax, lowering and reifying; the structural round trip |
| `Synthesis.dfy` | the two builders of a binding's physical type |
| `Substitution.dfy` | generic substitution |
| `Compatibility.dfy`, `Assignability.dfy` | assignability and write permission; what may stand for what |
| `HandleGrammar.dfy`, `GrammarSearch.dfy` | the grammar of handle chains; the search for violations |
| `Words.dfy`, `PlaceState.dfy`, `PlaceCells.dfy` | 64-bit words as sets of bits; the place facts as values; the mutable objects over words |
| `PlaceRuns.dfy`, `PlaceFlow.dfy` | programs over one local and the runs they have; the analysis of the statement checker against those runs |
| `ScopeMoves.dfy` | moves and reassignments in nested scopes |
| `NominalShapes.dfy`, `SemanticKeys.dfy`, `PlaceOrder.dfy` | nominal ids, identity keys, the order of places |
| `InterfaceCleanup.dfy`, `AuditRecorder.dfy` | the owning-edge walk; the audit recorder |

Types are values: a type node, a declaration and a piece of syntax are trees. Where identity of nodes
matters (the two depth-first searches) nodes are numbers in a finite graph whose edges may be cyclic;
handle chains stay trees, because a pointer is always built on an existing pointee. Strings are sequences
of characters below 256 wherever their bytes are taken apart. Code that updates state step by step is a
class or a loop proved against a function on values; the lemmas are about those functions.

## What the code does where one might expect otherwise

* **The join of projection ledgers is not associative.** Ledgers that share no projection leave nothing
  tracked, and the next join takes that for "no ledger yet". `PlaceState.MasksAssociateIff` says exactly
  when the order does not matter. For valid `ExactPlaceFacts` it never matters (`JoinAssociative`).
* **The join of `ExactPlaceFacts` commutes except between two different empty facts**, of which the left
  one stays (`JoinCommutesIff`).
* **The facts before a loop are lost in nested blocks.** A loop body is analysed once, and the facts before
  the loop are joined in after it only for the locals of the block the loop stands in. For a local of an
  enclosing block, a function parameter included, they are not, although the design asks for a union over all
  predecessors at every loop (`docs/semantic_core/place_state_core_rfc.md:75-96`). A moved local that is
  assigned in a loop in either arm of a branch then counts as live (`PlaceFlow.LoopsInBothArms`). The facts
  hold throughout a program exactly when every such loop leaves facts that include those before it
  (`HoldsIff`), and at its end exactly when they include what one joining pass computes (`HoldsAtEndIff`).
* **One pass over a loop does not catch a second move**, of a local that is not uniquely owned or of a
  projection of any local (`MovedInLoop`, `TakenInLoop`), nor a second construction of any local
  (`BuiltInLoop`).
* **Moving a local out leaves the facts of its projections as they were.** An array element can be moved out
  after the whole array was (`TakenFromMoved`), although the design lets only a live place be moved
  (PS-TRANS-04 in `docs/semantic_core/place_state_core_rfc.md:202-210`); for a record field the checker looks
  at the whole first. A projection of a local that may be moved can be assigned as well. The facts of
  projections therefore say something about runs only while the whole is live (`FactsSound`).
* **When accepted programs are safe.** `SafeThroughoutIff` gives the exact condition. For uniquely owned
  locals the extra loop check leaves three things to ask (`UniqueSafeIff`): that unjoined loops are covered,
  that parts are used only while the local is live, and that it is not constructed in a loop.
* **An assignment to a local that may be live or moved leaves its fact as it was**, so a later move is
  rejected although no run goes wrong (`ReassignedFalseAlarm`). This is the one place where the facts are not
  exact (`ExactIff`).
* **The two synthesisers disagree** on the soul `none`, on a soul that is both writable and blocked without
  any handle, on marks on `never`, `void` and `unknown` without any handle, and on identity marks without any
  handle, which the string parser takes for part of the name (`BuildersAgree`, `ReadStray`).
* **The string bridge loses arrays inside slices and arrays**: the parser cuts at the first `;` it sees, so
  it can never return such a type (`StringReach.ParsedIsFlat`).
* **Some callables and outcomes do not survive their own text.** A void result is not printed and is read back
  as unit, marks behind the result become the callable's own, a block or may-zero mark of a callable is not
  printed, and the cede mark follows the receiver (`CallRoundTrip.CallRoundTripIff`). An outcome prints none of
  its own marks, and takes over a "cede " its item begins with (`OutcomeRoundTripIff`).
* **Assignability does not chain through raw pointers to void** nor through bound shapes with a dynamic name
  (`Compatibility.ChainsThroughIff`), and a raw pointer's pointee becomes writable unless it is already, or a
  handle stands there (`RawGainsIff`, `RawGainsPastVoidIff`). Outcomes and places are compared by kind alone,
  so the handles inside always can gain (`OutcomeGains`).
* **Substituting in two steps reads a numeral as a number first**, so a numeral that is itself a key makes
  the steps differ from the composed map unless it is mapped to the same number
  (`Substitution.LengthComposesIff`, `SubstituteComposesIff`, `NumeralKeyFails`).

## Model

| member | source | states |
|---|---|---|
| Identity.IdentityIffEquals | src/Type.cpp:75-159 | two resolved types have the same canonical identity text exactly when they are semantically equal, at any depth |
| Identity.IdentitiesIffEquals | src/Type.cpp:130-155 | the same for lists of arguments and parameters |
| Identity.CanonicalSymbolIffEquals | src/Type.cpp:161-172 | the hexadecimal symbol decides semantic equality in both directions |
| Identity.CanonicalMangledName | src/Type.cpp:161-172 | the loop writes `T` and two hexadecimal digits for each byte of the identity |
| Identity.HeaderUnique | src/Type.cpp:75-86 | equal identities agree on kind, attributes and the text of the fields |
| Identity.ShapeFieldsUnique | src/Type.cpp:51-71 | shape heads that print alike are of one family, with the same variant and the same argument identities, also where an instance lends its own arguments |
| Identity.DeclIdentityIff | src/Type.cpp:51-71 | two declarations have one identity exactly when they have one nominal id; or none, and are instances of one template with the same argument identities; or are synthetic, of one name |
| Text.FramedUnique | src/Type.cpp:42-49 | a length-framed part in front of any rest determines its tag, its value and the rest |
| Text.FramedAllUnique | src/Type.cpp:130-136 | a run of parts under one tag, ended by another tag, can be split in one way only |
| Text.HexInjective | src/Type.cpp:161-172 | the hexadecimal form of a byte string determines it |
| Mangling.MangledIffEquals | src/Type.cpp:174-279 | mangled names decide semantic equality on primitives, argument-free nominal shapes and everything built from them by handles, arrays, slices, outcomes, uninit and function types of any arity |
| Mangling.MangledName | src/Type.cpp:174-279 | the recursive encoder with its parameter loops computes that name |
| Mangling.SanitizeText | src/Type.cpp:257-279 | the in-place character loop maps every character and keeps the length |
| Mangling.CharsApart | src/Type.cpp:257-279 | the result is made of letters, digits and underscores, exactly names pass unchanged, and no two marks or sigils are mapped to one letter |
| Mangling.BoxedAllUnique | src/Type.cpp:187-189 | a run of length-framed names can be split in one way only |
| Mangling.LettersUnique | src/Type.cpp:175-185 | attribute letters cannot be confused with the frame behind them, and determine the attributes |
| Mangling.LeafIsNoNode | src/Type.cpp:190-279 | no leaf, `Addr` and `OAddr` included, shares its name with a node that has parts |
| Mangling.ShapeUnique | src/Type.cpp:793-823 | the name of a nominal shape determines its nominal id, its marks and its variant suffix |
| StringReach.StringBridgeIff | src/Type.cpp:1667-2066 | for handle chains of any depth over primitives, named and generic shapes with variants, slices, arrays, uninit and place wrappers, parsing the printed text gives the type back exactly when no array stands inside a slice or another array |
| StringReach.ParsedIsFlat | src/Type.cpp:1933-1958 | whatever text it is given, the parser never returns a type with an array inside a slice or another array |
| StringRoundTrip.StringBridge | src/Type.cpp:1667-2066 | the constructive half: every printable type without such arrays is read back, marks, lengths and variants included |
| StringRoundTrip.TextPasses | src/Type.cpp:2006-2033 | a printed type passes through the argument cutter whole: its commas lie inside its own brackets |
| StringRoundTrip.CutJoined | src/Type.cpp:2008-2033 | a printed argument list is cut into exactly the texts of its arguments |
| StringRoundTrip.HandleText | src/Type.cpp:1888-1931 | marks behind a sigil are read on that layer, and marks behind the whole chain reach the soul |
| StringRoundTrip.SoulRestored | src/Type.cpp:1250-1261 | taking the soul's marks off a chain and applying them again restores the type |
| StringRoundTrip.ArrayText | src/Type.cpp:1933-1952 | an array text with a flat element is read as its element and its length, numeric or symbolic |
| CallRoundTrip.CallRoundTripIff | src/Type.cpp:919-936 | a function or dyn function over printable parameters and result is read back from its text exactly when it bears no marks but the write mark and the cede mark of a consuming one, and its result is not void and ends in no mark |
| CallRoundTrip.CallRead | src/Type.cpp:1760-1885 | what any such callable is read as: its form, receiver mode, parameters, variadic flag and result come back, a void result as unit, and the marks at the end go to the callable |
| CallRoundTrip.SpelledCallRead | src/Type.cpp:1772-1775 | the same for a dyn function whose word is written without the blank |
| CallRoundTrip.CutInside | src/Type.cpp:1843-1861 | a printed parameter list is cut into exactly the texts of its parameters and the dots |
| CallRoundTrip.OutcomeRoundTripIff | src/Type.cpp:1745-1758 | an outcome is read back exactly when it is unmarked and its item does not begin with "cede " |
| CallRoundTrip.OutcomeRead | src/Type.cpp:1745-1758 | what an outcome over any printable item is read as, in both spellings of its end |
| CallRoundTrip.NulRead | src/Type.cpp:1727-1743 | "nul" in front of a printed raw pointer makes that pointer may-zero and changes nothing else; in front of any other printed type the text is unresolved |
| CallRoundTrip.LifetimeRead | src/Type.cpp:1672-1698 | a lifetime dependency behind a printed type is taken off and the type is read back |
| CallRoundTrip.MayZeroSuffix | src/Type.cpp:1700-1728 | a question mark behind any printed type makes the text unresolved |
| CallRoundTrip.BlanksIgnored | src/Type.cpp:1667-1670 | blanks around a printed type mean nothing |
| CallRoundTrip.SignedNumber | src/Type.cpp:1933-1945 | the number read from an array length: a sign in front, with minus wrapping around at 64 bits, anything behind the digits, and no number from 2 to the 64 on |
| TypeParser.ParseType | src/Type.cpp:1667-1745 | the parser's trimming, stripping and dispatching steps compute the parsing function |
| TypeParser.ParseRest | src/Type.cpp:1888-1975 | sigils, arrays and slices are read by loops as the parsing function says |
| TypeParser.ParseNamed | src/Type.cpp:1977-2066 | names, generics and variants likewise |
| TypeParser.CutArgs | src/Type.cpp:2008-2033 | the balancing loop over generic arguments cuts as the specification says |
| TypeParser.CutParams | src/Type.cpp:1785-1806 | and so does the one over parameters |
| TypeParser.PopMarks | src/Type.cpp:1700-1722 | the suffix loop strips the marks of the outermost type and reports which there were |
| TypeParser.CutLifetime | src/Type.cpp:1677-1698 | a top-level lifetime arrow cuts the text, an arrow inside brackets does not |
| Synthesis.SynthesisersAgree | include/toka/Sema.h:1740-1931 | parsing the synthesised spelling gives the type built directly exactly when BuildersAgree holds, for every layer sequence and every named soul |
| Synthesis.ReadLayers | include/toka/Sema.h:1740-1805 | every layer is read back on its own level and the soul's suffixes reach the deepest soul |
| Synthesis.ObjectMeans | include/toka/Sema.h:1813-1931 | the direct builder wraps the marked soul in the permission's layers |
| Synthesis.ReadStray | include/toka/Sema.h:1787-1791 | without a handle, identity marks are parsed as part of the soul's name |
| Synthesis.InferredHandleAgrees | include/toka/Sema.h:1885-1929 | when the inferred soul already is the declared handle, both builders give that one handle with the declared marks, and not a second layer |
| Synthesis.SynthesizePhysicalType | include/toka/Sema.h:1740-1805 | the loop over the layers spells the permission from the outside in |
| Synthesis.SynthesizePhysicalTypeObject | include/toka/Sema.h:1813-1931 | the loop from the innermost layer out builds the wrapped type |
| SyntaxRoundTrip.SyntaxRoundTripIff | src/Type.cpp:1273-1665 | lowering the reified syntax gives the type back exactly when it is Stable, nested functions, dyn functions, cede wrappers, constant arguments, outcomes and bound shapes included |
| SyntaxRoundTrip.ArgsRoundTripIff | src/Type.cpp:1375-1395 | generic arguments survive exactly when each is stable or an unmarked constant that keeps its meaning |
| SyntaxRoundTrip.ListRoundTripIff | src/Type.cpp:1398-1441 | parameter lists likewise |
| SyntaxRoundTrip.LowerHandle | src/Type.cpp:1326-1358 | a reified handle is lowered to the handle with its own marks and cede mark |
| SyntaxRoundTrip.PostfixMark | src/Type.cpp:1582-1620 | a mark behind a lowered handle changes its pointee only: the handle keeps its own marks |
| SyntaxRoundTrip.PrefixMark | src/Type.cpp:1595-1616 | a mark in front of a handle is the handle's own, and the pointee stays as it is |
| SyntaxRoundTrip.ZeroSpellings | src/Type.cpp:1628-1655 | "nul" before a starred pointer and the question-mark sigil are lowered to the same may-zero raw pointer, and "nul" before anything but a raw pointer is unresolved |
| Substitution.SubstituteComposesIff | src/Type.cpp:1046-1123 | applying one map and then another is applying the composed map exactly when no numeral in a remaining length is mapped on to another number |
| Substitution.LengthComposesIff | src/Type.cpp:1052-1072 | a symbolic length resolves alike in one step and in two under the same condition, and only then |
| Substitution.LengthBound | src/Type.cpp:1052-1072 | a length bound to the numeral of a number below 2 to the 64 becomes that number and loses its symbol; a larger numeral becomes the symbol |
| Substitution.LengthRenamed | src/Type.cpp:1052-1072 | a length bound to another name takes that name, and one that is not bound keeps its own |
| Substitution.NameBound | src/Type.cpp:1080-1098 | a bound name becomes its binding, and a marked one its binding under the union of the marks |
| Substitution.NothingLeft | src/Type.cpp:1046-1123 | when no binding brings in a bound name or length, the result of a substitution holds none anywhere |
| Substitution.DisjointIsIdentityIff | src/Type.cpp:1046-1123 | a map that names nothing in a type leaves it alone exactly when every node is settled |
| Substitution.UnionAttrAssociative | src/Type.cpp:358-370 | the union of marks with blocked absorbing writable is associative and commutative |
| Substitution.MergeTwice | src/Type.cpp:358-370 | marks added in two steps are the union added in one, a block absorbing the write mark, and suffixes are appended |
| Substitution.MergeSubstitutes | src/Type.cpp:1080-1098 | substituting in a merged replacement is merging the substituted replacement |
| Substitution.SubstituteParts | src/Type.cpp:1099-1123 | the loop over the parts substitutes in each of them |
| Substitution.NumeralKeyFails | src/Type.cpp:1052-1072 | the smallest pair of maps for which two steps and one step differ |
| Compatibility.CompatibleSelfIff | src/Type.cpp:341-355 | exactly which types are compatible with themselves, ill-formed ones included |
| Compatibility.CompatibleReflexive | src/Type.cpp:341-355 | every well-formed type is compatible with itself |
| Compatibility.ChainsThroughIff | src/Type.cpp:522-700 | assignability can be chained through a well-formed type exactly when, where it is compared part by part, it has no raw pointer to void and no bound shape with a dynamic name |
| Compatibility.CompatibleTransitive | src/Type.cpp:522-700 | the constructive half, for all types |
| Compatibility.BrokenChain | src/Type.cpp:573-589 | for every other well-formed type two assignable neighbours of the same kind and marks that do not compose |
| Compatibility.ChainGainsNothing | src/Type.cpp:573-700 | along any chain of assignments no unique, shared or reference layer's pointee becomes writable, through arrays, slices, shape arguments and results of callables too, and behind raw pointers as well in chains without raw pointers to void |
| Compatibility.NoGainStep | src/Type.cpp:573-700 | one more assignment gains nothing, also where a shared handle is read through |
| Compatibility.GainsNothingIff | src/Type.cpp:573-700 | passing through a well-formed type gains nothing, whatever came before and comes after, exactly when no bound shape in it goes by a dynamic name and, for the bound that goes on behind raw pointers, no raw pointer to void stands in it |
| Compatibility.DeepKeepsIff | src/Type.cpp:573-700 | these are then exactly the types through which assignability can be chained |
| Compatibility.EqualsSelfIff | src/Type.cpp:834-859 | a type equals itself exactly when nothing in it is unresolved |
| Compatibility.RawGainsIff | src/Type.cpp:573-589 | no assignment makes a raw pointer's pointee writable exactly when it is writable already |
| Compatibility.RawGainsPastVoidIff | src/Type.cpp:573-589 | without raw pointers to void, also when a handle stands behind it and behind its shared handles |
| Compatibility.OutcomeGains | src/Type.cpp:341-355 | an outcome or a place is assignable to one whose inner handle gives more write permission |
| Assignability.AssignableAlike | src/Type.cpp:526-700 | assignable types are semantically equal once marks, integer names, shared handles and the items of outcomes and places are set aside, wherever no raw pointer to void, dynamic name or unresolved type is compared |
| Assignability.AssignableIdentity | src/Type.cpp:573-700 | so these have the same canonical identity |
| Assignability.SameDeclaration | src/Type.cpp:861-888 | only a shape of the same declaration identity and variant, with as many arguments, stands for a bound shape that has no dynamic name, and only one of the same name for an unbound shape |
| Assignability.SameKind | src/Type.cpp:341-355 | the part that is read has the kind that is asked for |
| Assignability.PrimitivesIff | src/Type.cpp:526-539 | primitives are assignable exactly when they have one name and no may-zero mark, or are both integers, which no float and no bool is |
| Assignability.EqualAssignable | src/Type.cpp:341-355 | semantically equal well-formed types are assignable |
| Assignability.ReadOnlyAssignable | src/Type.cpp:573-700 | every well-formed type is assignable to itself without any permission |
| HandleGrammar.Classify | src/Type.cpp:2086-2179 | the classifier accepts exactly the empty, the all-raw, the single managed and the borrow-over-managed chains, names the one violation of any other, and counts the depths |
| HandleGrammar.SuffixClosed | src/Type.cpp:2296-2312 | every suffix of an accepted chain is accepted, so jumping to the soul skips nothing |
| HandleGrammar.ComputeLayerIndices | src/Type.cpp:2211-2266 | the loops report the first pair of layers that shows the violation |
| HandleGrammar.ReportedIsInside | src/Type.cpp:2211-2266 | for a rejected chain these are two layers of the chain, and a raw and a managed one next to each other when it is mixed |
| HandleGrammar.CrossingExists | src/Type.cpp:2253-2265 | a mixed chain has a place where a raw and a managed layer meet |
| GrammarSearch.FindHandleGrammarIssue | src/Type.cpp:2275-2485 | nothing is reported exactly when every place a path reaches is grammatical and no parameter is too deep; a report's path leads to the type it names, which has the reported violation, enters no node twice, and is the first in the order of the search |
| GrammarSearch.FirstIssueUnique | src/Type.cpp:2338-2431 | there is only one such report: arguments come before members, parameters before the result, a chain before what is behind it, and a parameter's depth after everything behind the parameter |
| GrammarSearch.Searcher.Find | src/Type.cpp:2275-2317 | what one call of the recursive search leaves visited is done or pending, on cyclic graphs too, and it terminates |
| GrammarSearch.Searcher.FindParams | src/Type.cpp:2398-2431 | parameters are searched in order and judged by the stricter rule |
| GrammarSearch.SeenEverywhere | src/Type.cpp:2268-2273 | once everything entered is done but for the open nodes, no path that avoids these leads to anything unseen |
| Words.WordExtensional | include/toka/PlaceState.h:143-235 | a 64-bit word is determined by its bits |
| Words.Test | include/toka/PlaceState.h:152-155 | testing a word with a shifted one tells whether the bit is on, and bits past the word are off |
| PlaceState.FactAtJoin | include/toka/PlaceState.h:180-193 | the fact of a projection at a join is the union, where both sides track it |
| PlaceState.FactAtSet | include/toka/PlaceState.h:200-222 | a strong update changes one projection, to exactly one state |
| PlaceState.DefinitelyLiveMeans | include/toka/PlaceState.h:172-174 | the definitely-live mask holds exactly the projections whose only state is Live |
| PlaceState.InitMaskOfJoin | include/toka/PlaceState.h:175-193 | the legacy mask of a join is the AND of the two branches on the projections both track, and unchanged elsewhere |
| PlaceState.MasksExtensional | include/toka/PlaceState.h:143-170 | the masks are determined by the facts they record |
| PlaceState.MasksAssociateIff | include/toka/PlaceState.h:180-193 | exactly when three ledgers can be joined in any order |
| PlaceState.JoinAssociative | include/toka/PlaceState.h:323-350 | the join of valid facts is associative, across mismatched plans too |
| PlaceState.JoinCommutesIff | include/toka/PlaceState.h:323-350 | it commutes unless two different empty facts meet |
| PlaceState.JoinIdempotent | include/toka/PlaceState.h:323-350 | it is idempotent |
| PlaceState.EmptyIsIdentity | include/toka/PlaceState.h:323-331 | an empty fact is an identity on both sides |
| PlaceState.ValidKept | include/toka/PlaceState.h:265-321 | setting the whole or the plan, moving a projection and repopulating keep the tracked mask equal to the eligible mask and every fact non-empty |
| PlaceState.PlannedFact | include/toka/PlaceState.h:147-150 | what a plan starts its projections with: nothing outside the plan, exactly Live where the init mask has the bit, and exactly Never elsewhere |
| PlaceState.JoinIsValid | include/toka/PlaceState.h:323-350 | and so does the join |
| PlaceState.IsDefinitelyLiveIff | include/toka/PlaceState.h:311-315 | the mask comparison says exactly that the whole and every eligible projection can only be Live |
| PlaceCells.ProjectionPlaceFacts.Set | include/toka/PlaceState.h:200-222 | the word updates compute the strong update |
| PlaceCells.ProjectionPlaceFacts.StateAt | include/toka/PlaceState.h:156-168 | the three bit tests compute the fact of a projection |
| PlaceCells.ProjectionPlaceFacts.JoinWith | include/toka/PlaceState.h:180-193 | the word formulas compute the join |
| PlaceCells.ProjectionPlaceFacts.ApplyToLegacyInitMask | include/toka/PlaceState.h:175-178 | the word formula computes the legacy mask |
| PlaceCells.ExactPlaceFacts.SetPlan | include/toka/PlaceState.h:266-272 | installing a plan starts its projections from the init mask and makes the facts valid |
| PlaceCells.ExactPlaceFacts.TransitionWhole | include/toka/PlaceState.h:277-286 | the whole changes only from exactly the expected fact |
| PlaceCells.ExactPlaceFacts.TransitionProjection | include/toka/PlaceState.h:290-305 | a projection changes only under its plan, never to Never, and nothing else changes |
| PlaceCells.MakePlan | include/toka/PlaceState.h:107-132 | the factories never make a plan that has a kind but no eligible projection |
| PlaceCells.ExactPlaceFacts.RepopulateAllProjections | include/toka/PlaceState.h:316-321 | every eligible projection becomes exactly live, and validity is kept |
| PlaceCells.ExactPlaceFacts.FactOfProjection | include/toka/PlaceState.h:306-310 | the fact of a projection is empty outside the plan |
| PlaceCells.ExactPlaceFacts.DefinitelyLiveNow | include/toka/PlaceState.h:311-315 | the comparison of words computes definite liveness |
| PlaceCells.ExactPlaceFacts.JoinWith | include/toka/PlaceState.h:323-344 | the in-place join computes the join of the values |
| PlaceRuns.ReachIff | docs/semantic_core/place_state_core_rfc.md:75-89 | one pass that joins at every merge computes exactly the states of a cell in which some run ends, loops included |
| PlaceRuns.SlotIsPart | docs/semantic_core/place_state_core_rfc.md:123-128 | a projection, which a move of the whole takes along, is in the state of its slot whenever the whole is live, and a run that treats the whole as it should goes wrong in the one exactly when in the other |
| PlaceRuns.SafeIff | docs/semantic_core/place_state_core_rfc.md:84-96 | no run violates the precondition of a statement exactly when each loop body is safe from what precedes it and from what one round leaves |
| PlaceRuns.BuildingLoopFaults | src/Sema/Sema_Expr_Binary.cpp:571-577 | a loop that constructs the local goes wrong in its second round, wherever it starts |
| PlaceFlow.AnalyseKeeps | src/Sema/Sema_Expr.cpp:4173-4246 | facts stay complete, the plan stays, and the Moved flag says exactly whether the local may be moved, joined or not |
| PlaceFlow.AcceptsIff | include/toka/PlaceState.h:277-315 | a construction, a move and an assignment pass exactly when every state the facts leave open is an expected one, in the local and every eligible projection; assigning a projection needs only that the local may be live and cannot be unconstructed, moving one out that it is live and, behind a field, that the local cannot be moved |
| PlaceFlow.StepFact | src/Sema/Sema_Expr_Binary.cpp:1814-1827 | an accepted statement changes the fact of the whole and of each slot as it changes their states, except an assignment to a local that may be live or moved |
| PlaceFlow.FactsSound | src/Sema/Sema_Expr.cpp:4160-4248 | in every accepted program whose unjoined loops are covered, the whole ends every run in a computed state, and so does every eligible projection when the whole ends live, although loop bodies are analysed once |
| PlaceFlow.HoldsIff | src/Sema/Sema_Expr.cpp:4173-4241 | the facts of an accepted program, of the whole and of every slot, hold at every statement exactly when each loop without an entry join leaves facts that include those before it |
| PlaceFlow.HoldsAtEndIff | src/Sema/Sema_Expr.cpp:4173-4241 | they hold at the end exactly when they include what one pass joining at every loop computes |
| PlaceFlow.DefinitelyLiveOnAllRuns | include/toka/PlaceState.h:311-315 | under the same covering, definitely live means live on all runs, as a whole and in every eligible projection |
| PlaceFlow.SafeThroughoutIff | src/Sema/Sema_Expr.cpp:4160-4248 | in a covered accepted program no statement ever meets the local or a projection in a state it does not expect exactly when each loop body is safe from what its first round leaves and projections are assigned and moved out only while the local is live |
| PlaceFlow.SafeOnSlotsIff | src/Sema/Sema_Expr.cpp:4160-4248 | being safe in the whole and in every projection is being safe in the whole and in every slot, which the facts keep account of |
| PlaceFlow.UniqueSafeIff | src/Sema/Sema_Expr.cpp:1236-1249 | with the loop check, an accepted program on a uniquely owned local, constructed or not, holds and is safe throughout exactly when its unjoined loops are covered, parts are used only while the local is live, and no construction stands inside a loop |
| PlaceFlow.ExactIff | src/Sema/Sema_Expr.cpp:4160-4248 | every computed state is reached by some run, at every statement, exactly when no assignment meets a local that may be live and may be moved |
| PlaceFlow.RejectedFaults | include/toka/PlaceState.h:277-305 | without such assignments a rejection is never a false alarm: some run goes wrong |
| PlaceFlow.LoopsInBothArms | src/Sema/Sema_Expr.cpp:4173-4180 | a program whose facts are lost in nested blocks: a moved local is moved again, uniquely owned or not |
| PlaceFlow.MovedInLoop | src/Sema/Sema_Expr.cpp:1236-1249 | the smallest program one pass does not catch, and that the check for uniquely owned locals does |
| PlaceFlow.TakenInLoop | src/Sema/Sema_Expr.cpp:5055-5066 | a projection moved out in a loop is accepted by either check, and its second round is wrong |
| PlaceFlow.TakenFromMoved | src/Sema/Sema_Expr_Member.cpp:797-840 | an accepted program that moves an element out of an array that was moved as a whole |
| PlaceFlow.BuiltInLoop | src/Sema/Sema_Expr_Binary.cpp:571-577 | a construction in a loop passes both checks, and its second round is wrong |
| PlaceFlow.ReassignedFalseAlarm | include/toka/Sema.h:369-381 | a rejected program of which every run is safe |
| PlaceFlow.RefilledFalseAlarm | src/Sema/Sema_Expr.cpp:1236-1249 | a program that only the loop check rejects, and of which every run is safe |
| ScopeMoves.RunCalls | include/toka/Sema.h:354-382 | along any run of calls no local is moved twice without being assigned again, and every Moved flag agrees with its place |
| ScopeMoves.Scope.MarkMoved | include/toka/Sema.h:354-367 | marking succeeds only on an exactly live local and changes that name alone, through nested scopes |
| ScopeMoves.Scope.ResetMoved | include/toka/Sema.h:369-381 | resetting changes only an exactly moved local |
| ScopeMoves.MarkAndUnmark | include/toka/Sema.h:354-382 | neither call separates the flag from the place, and a reset undoes a mark |
| NominalShapes.CanonicalUnique | include/toka/NominalShapeId.h:76-93 | equal canonical texts come from the same origin kind, coordinates, name and arity |
| NominalShapes.MangledUnique | include/toka/NominalShapeId.h:40-50 | equal mangled names do too |
| NominalShapes.MangledShape | include/toka/NominalShapeId.h:40-50 | the loop writes `N` and the hexadecimal form of the canonical text |
| NominalShapes.Encode | include/toka/NominalShapeId.h:76-93 | appending component by component computes the canonical text |
| SemanticKeys.KeyDeterminesLineage | include/toka/SemanticModel.h:133-274 | equal keys have one and the same ancestry of domains, parents and witnesses, down to the origin |
| SemanticKeys.BuildLineage | include/toka/SemanticModel.h:133-274 | building an ancestry succeeds exactly when no text in it is empty, and otherwise reports which error the identity itself has |
| SemanticKeys.Build | include/toka/SemanticModel.h:246-265 | the checks in their order, and the appended key |
| PlaceOrder.PlacesOrdered | include/toka/SemanticModel.h:340-409 | the order of places is strict and total, and only equal places are unordered |
| PlaceOrder.StringsOrdered | include/toka/SemanticModel.h:66-69 | so is the order of keys |
| InterfaceCleanup.VisitInterfaceCleanupTypes | include/toka/InterfaceBody.h:8-33 | the callback gets exactly the declarations of the bound shapes reachable along owning edges, once for each of their type nodes |
| InterfaceCleanup.Visitor.Visit | include/toka/InterfaceBody.h:8-33 | one call of the walk: what it adds is reachable and complete, and every bound shape added was reported once; it terminates on recursive shapes |
| InterfaceCleanup.Visitor.VisitMember | include/toka/InterfaceBody.h:22-30 | unit variants are skipped, payload slots are visited instead of the variant |
| AuditRecorder.Replay | include/toka/HandleGrammarAudit.h:219-388 | any sequence of calls leaves exactly the entries that the calls add up to; an entry is Reachable (or Lowered) exactly when its function was ever marked so, and counters, sets and index agree |
| AuditRecorder.Recorder.Record | include/toka/HandleGrammarAudit.h:219-321 | a report makes or updates one entry, rejects its type's entries where the source is at fault, and keeps formed equal to valid plus invalid |
| AuditRecorder.Recorder.MarkFunctionReachable | include/toka/HandleGrammarAudit.h:356-371 | exactly the function's entries become Reachable, and the counter stays the size of the set |
| AuditRecorder.Recorder.MarkFunctionCodeGenLowered | include/toka/HandleGrammarAudit.h:373-388 | the same for lowering |
| AuditRecorder.KeyNamesOne | include/toka/HandleGrammarAudit.h:245-246 | a key names one function, when no function id repeats a violation between separators |
| AuditRecorder.FnIdOkIff | include/toka/HandleGrammarAudit.h:245-246 | that condition is exact: any other id shares a key with a shorter one |
| AuditRecorder.KeyDetermines | include/toka/HandleGrammarAudit.h:245-249 | equal keys agree on their first n components, in the order of the key, when the separator occurs in none of these, and on all nine when it occurs at most in the function ids |
| AuditRecorder.KeyDeterminesPlace | include/toka/HandleGrammarAudit.h:245-249 | so findings of different origins or locations have different keys |
| AuditRecorder.RecordedDecides | include/toka/HandleGrammarAudit.h:268-306 | what one report decides: a first finding in the source rejects every entry of its type, a generated or transient one only its own, an instantiated repetition admits its entry |
| AuditRecorder.EntriesAccount | include/toka/HandleGrammarAudit.h:245-321 | after any calls a key has an entry exactly when a finding was reported under it, and the entry has the identity, origin and function of the first such report, the phases of all, and is admitted exactly when a later one was instantiated |
| AuditRecorder.LocationsApart | include/toka/HandleGrammarAudit.h:245-249 | findings at two locations have two entries, whatever else was reported |
| AuditRecorder.LastDecision | include/toka/HandleGrammarAudit.h:268-306 | the decision on an entry is that of the last call that settled it |

## Left out

- Sharing of type nodes: types are values, so two equal trees are the same type; only the two searches know nodes by identity.
- Null children of types, and null syntax: every child is present. The grammar search alone keeps null pointees and members.
- `SourceSyntax`, `IsSync` and `BypassesCurrentTypeAlias` of shapes, anonymous-record fields and projection targets in the grammar search: metadata that is no part of type identity.
- Source locations, the syntax tree passed along the grammar search, and the message text of an issue.
- Members of a shape that carry only a string or only syntax for their type: a member has its resolved type or none.
- A type-valued argument as an array length in syntax, and alias lookup: name resolution is not part of this model.
- CallRoundTrip.CallRoundTripIff: a callable or an outcome inside another type or among the parameters of a callable; the parser looks for commas, arrows and `|miss` across the whole text, so these have no grammar of their own.
- Mangling.MangledIffEquals: covers no unbound and no generic shape, whose names are built from sanitised text that is not unique.
- Mangling.Mangled: a nominal text that is no byte string has no hexadecimal form here; in the compiler every character is a byte.
- Substitution.LengthComposesIff: for symbols mapped to bare names or numerals whose onward replacement is settled; a symbol mapped to any other type prints as that type's text.
- GrammarSearch: layer numbers are unbounded, the compiler keeps them in 32 bits.
- PlaceFlow: breaks, continues, returns, for-loops, guards, outcome matches, captures and branches on `is uninit`; one local at a time; the order of evaluation inside an expression; the borrow checker, which looks at moves on its own; the init mask, by which the checker judges uses of an aggregate that has no plan.
- PlaceFlow.RejectedFaults: a rejection stands for the diagnostics of the checker; their texts are not modelled. The loop check for uniquely owned locals gives false alarms of its own (`RefilledFalseAlarm`); `PlaceRuns.SafeIff` decides which of its rejections are.
- `fromLegacy`, `setProjectionFacts` and the direct references to the parts of `ExactPlaceFacts`: plain assignments.
- ScopeMoves: lookup through decorated names (`findVariableWithDeref`) and symbol numbers.
- AuditRecorder: counters are unbounded, the compiler keeps them in 64 bits; `markRejected`, `markTypeLowered`, `markFunctionInstantiated`, the environment, the JSON output and `flush`.
- Hash values of identities and places, and the callee identities built on them.
- `isSend`, `isSync`, `valueOwnership`, conformance, diagnostics, manifests, code generation, and everything that only the undeclared parts of `Sema` decide.
