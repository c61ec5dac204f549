# cleaner: a verified model of the charge-text normaliser

`cleaning_utils.py` turns a free-text criminal charge description into a
normalised string before it is classified. Its entry point `cleaner(text)`
works in five stages:

1. It returns `""` for a missing value.
2. `prep_text` runs. It deletes the comma of each leftmost, non-overlapping
   digit-comma-digit match (so `1,2,3` becomes `12,3`), collapses a
   lowercase possessive `'s` and turns `-` and `/` into spaces.
3. The substitution rules run. They are sorted stably by `priority` and
   applied one after the other, each as a replace-all.
4. The removal rules run in list order. Each match becomes one space.
5. The finaliser runs. It blanks every character of `all_punctuation`,
   collapses whitespace with `split`/`join`, and lowercases the text.

This project models those stages as pure functions on `string`
(`seq<char>`) and proves their properties. It models the rule catalogue
rule by rule.

Modules, one per file:

- `Wrappers` (`wrappers.dfy`): `Option`.
- `Chars` (`chars.dfy`): the character classes of Python `re` and `str`.
  - `\w` and `\d` are ASCII.
  - Whitespace is exactly `str.isspace`.
  - `Lower` is ASCII `str.lower`.
  - `\b` is modelled by `BoundaryAt`.
- `Rewrite` (`rewrite.dfy`): `re.sub` as a left-to-right scan. At each
  position the scan tries the pattern. A match is replaced and the scan
  resumes after it; with no match the character is copied. So matches are
  leftmost and never overlap. Matches are non-empty (`Len`).
- `Patterns` (`patterns.dfy`): the rule patterns.
  - `Words(leading, alternatives, guard, trailing)` is the catalogue's
    dominant shape, `\b(?<!g)(?:a1|...|an)(?!h)\b`. It is an ordered
    alternation of fixed-width alternatives of literal characters, compared
    ignoring case, and classes. It has optional word boundaries and at most
    one lookaround guard.
  - Optional characters and nested groups are expanded into alternatives in
    the order Python's backtracking tries them. The first alternative that
    fits is therefore the match Python finds.
  - `Composite(source)` is a pattern built from the `sep` sub-pattern
    (`(?: +|\W+|\b)`), which needs real backtracking. Its meaning comes from
    an `Oracle` parameter keyed by the regex text. Every property of the
    pipeline holds for every oracle.
- `Rules` (`rules.dfy`):
  - `Substitution`, whose `priority` defaults to 10, and `Removal`;
  - one rule applied as `re.sub`;
  - the stable sort by priority, as an insertion sort;
  - the two left folds.
- `Prep` (`prep.dfy`): the four `re.sub` calls of `prep_text`.
- `Finaliser` (`finalize.dfy`): `all_punctuation`, the punctuation loop,
  `split`/`join` and `lower`.
- `Cleaner` (`cleaner.dfy`): `Clean`, and `CleanText`, which is `Clean`
  written as the loops of the source. It also holds the schedule of
  `re.sub` calls the cleaner makes.
- `SourceRules` (`catalogue.dfy`): the full catalogue, 529 substitutions and
  3 removals, in source order and grouped by the source's headings.
  - The 298 plain-string rules and two of the three removals are concrete
    patterns.
  - The 231 rules built with `sep`, and the "Statute Prefix" removal, are
    `Composite`.
  - Nine plain-string rules contain `{sep}` without being formatted strings.
    For Python `re` that is five literal characters, and the model keeps
    them literal.
- `CatalogueFacts` (`catalogue_facts.dfy`): properties of individual rules.
  - what the three lookaround guards protect;
  - the two rules that can never fire;
  - the literal `{sep}` rules;
  - the repeated entries.

The model follows the code where the two differ.

- The output of `cleaner` is not limited to `[a-z0-9$ ]`. The finaliser
  keeps every character that is neither whitespace nor in
  `all_punctuation`, in order, and lowers only the ASCII capitals
  (`Finaliser.FinalizeKeepsContent`). So a control character, `€` or an
  accented letter that reaches the finaliser is still in the output. The
  earlier stages make no such promise: the `sep`-based rules and the
  "MO Suffix" and "Statute Prefix" removals match `\W` and `\S`
  characters and may consume them.
- Lower- and upper-case inputs do not always normalise alike. The possessive
  step of `prep_text` is case-sensitive: `John's` becomes `Johns`, but
  `JOHN'S` keeps its apostrophe and later becomes `john s`.
- Idempotence is proved for the finaliser only. A substitution's
  replacement can contain text that another rule matches, so running the
  whole cleaner twice may change the text again. No idempotence is claimed
  for `Clean`.

## Model

| member | source | states |
|---|---|---|
| Chars.Lower | cleaning_utils.py:2673 | `lower()` on one character: a capital becomes the small letter at the same place in the alphabet, no capital is left, and only capitals change |
| Chars.LowerString | cleaning_utils.py:2673 | `text.lower()` keeps the length, leaves no capital, and each character is the same as before ignoring case |
| Chars.LowerKeepsClasses | cleaning_utils.py:2673 | lowering keeps whitespace and word characters as they are, leaves no capital, and lowering twice is lowering once |
| Rewrite.ReplaceAll | cleaning_utils.py:2665 | `re.sub` with a pattern that matches nowhere returns the text unchanged; a replacement never longer than the (non-empty) text it replaces never lengthens the text |
| Rewrite.NoHitFrom | cleaning_utils.py:2665 | the scan copies the rest of the text when no match starts there |
| Rewrite.LeftmostHit | cleaning_utils.py:2665 | the scan copies the text up to the leftmost match, emits that match's replacement, and resumes right after the match: matches never overlap |
| Rewrite.ReplaceFromNoLonger | cleaning_utils.py:2647-2649 | a replacement never longer than its match never lengthens the text |
| Rewrite.ReplaceFromShorter | cleaning_utils.py:2647-2649 | when the pattern matches at least once and every match's replacement is strictly shorter than the match, the text gets strictly shorter |
| Rewrite.ReplaceFromShift | cleaning_utils.py:2647 | a scan over a text and a scan over its suffix from the same position give the same output when the pattern matches alike at every position of the suffix |
| Rewrite.ReplaceFromUnder | cleaning_utils.py:2647-2649 | under any map that distributes over concatenation, a pass whose every replacement looks like the span it replaces looks like its input |
| Patterns.MatchAt | cleaning_utils.py:35-36 | a whole-word pattern's match at `i` lies within the text, starts where the leading `\b` and lookbehind hold, and is as long as the first alternative that fits with its trailing `\b` and lookahead |
| Patterns.SpellsAtPointwise | cleaning_utils.py:35-36 | an alternative matches at `i` exactly when every atom accepts the character at its offset, letters compared under `re.IGNORECASE` |
| Patterns.FirstFitIsFirst | cleaning_utils.py:52 | ordered alternation: a match is found exactly when some alternative fits, and its length is that of the FIRST alternative that fits, even where a later one is longer |
| Patterns.WordsMatch | cleaning_utils.py:52 | a whole-word rule matches at `i` iff the leading boundary and lookbehind hold and some alternative fits with the trailing boundary and lookahead; the first such alternative gives the length |
| Patterns.NotPrecededByBlocks | cleaning_utils.py:295 | `(?<!t)`: a guarded rule never matches right behind the text `t`, in any case |
| Patterns.NotFollowedByBlocks | cleaning_utils.py:448 | `(?!t)`: a guarded rule never matches where every alternative would be followed by `t` |
| Patterns.FollowedByDigitThenBoundaryNeverMatches | cleaning_utils.py:53-56 | `\b..(?=\d+)\b` whose alternatives end in a word character matches nowhere, since a digit is a word character and no boundary separates two of them |
| Patterns.NotAtDigitIsVacuous | cleaning_utils.py:618 | a leading `(?!\d+)` before alternatives that cannot start with a digit matches exactly where the unguarded pattern does |
| Rules.Insert | cleaning_utils.py:2663 | one insertion step of the sort keeps the list sorted by priority and adds exactly the one rule |
| Rules.SortByPriority | cleaning_utils.py:2663 | `sorted(substitutions, key=priority)` is in non-decreasing priority and is a permutation of the catalogue (same multiset) |
| Rules.SortIsStable | cleaning_utils.py:2663 | for every priority value, the rules of that priority keep their catalogue order after sorting (stability) |
| Rules.SortSplitsAtPriority | cleaning_utils.py:2663 | the sorted list is the sorted rules below any priority `p` followed by the sorted rules at `p` or above |
| Rules.ApplyInOrderAppend | cleaning_utils.py:2664-2665 | the substitution loop is a left fold: running two lists of rules one after the other is running their concatenation |
| Rules.RuleSeesPrefixOutput | cleaning_utils.py:2664-2665 | rule `k` of the sorted list is applied exactly once, to exactly the output of rules `0..k-1` |
| Rules.LowerPriorityRunsFirst | cleaning_utils.py:2663-2665 | the substitution pass equals first the pass over the rules below `p`, then the pass over the rules at `p` or above |
| Rules.Substitute | cleaning_utils.py:2665 | a rule that matches nowhere leaves the text unchanged |
| Rules.SortKeepsSorted | cleaning_utils.py:2663 | sorting a list that is already in priority order returns it unchanged |
| Rules.SubstitutionPass | cleaning_utils.py:2663-2665 | when the rules are already in priority order (for instance all at the default priority), the pass runs them in catalogue order |
| Rules.Remove | cleaning_utils.py:2668 | a removal that matches nowhere leaves the text unchanged, and a removal never lengthens the text, each match of one or more characters becoming one space |
| Rules.RemovalPass | cleaning_utils.py:2667-2668 | the removal loop never lengthens the text |
| Rules.RemovalLeavesOneSpace | cleaning_utils.py:2667-2668 | a removal replaces its leftmost match with exactly one space, never with nothing, and carries on after the match |
| Prep.DigitRunEnd | cleaning_utils.py:2647 | the lazy `(\d+?)` grows over a maximal run of digits |
| Prep.ThousandsAt | cleaning_utils.py:2647 | `(\d+?),(\d+?)` matches at `i` exactly when a run of digits from `i` reaches a comma with a digit after it, and the match then ends just after that digit |
| Prep.ApostropheFrom | cleaning_utils.py:2649 | the lazy `(\S+?)` finds an `'s` exactly when one is reachable without crossing whitespace, and then stops at the FIRST such `'s` |
| Prep.PossessiveAt | cleaning_utils.py:2649 | `\b(\S+?)'(s)` matches at `i` exactly when `i` is a word boundary from which a run of non-whitespace reaches `'s`, and the match ends at the nearest such `'s` |
| Prep.JoinGroupsDrops | cleaning_utils.py:2647-2649 | `\1\2` drops exactly the character between the two groups, the comma or the apostrophe |
| Prep.JoiningKeepsAllBut | cleaning_utils.py:2647-2649 | a replace-all whose every match has character `c` between its groups deletes occurrences of `c` and nothing else |
| Prep.StripThousands | cleaning_utils.py:2647 | removing number commas deletes commas and nothing else, and never lengthens the text |
| Prep.StripThousandsChangesIff | cleaning_utils.py:2647 | the text changes exactly when some comma has a digit on each side |
| Prep.StripThousandsFirstComma | cleaning_utils.py:2647 | at the first comma with a digit on each side, the output is the text before it, then the digit after it, then the same step applied to the rest: only that comma goes, nothing before it changes |
| Prep.ThousandsAtShift | cleaning_utils.py:2647 | the comma pattern looks only forwards: whether and how far it matches at a position is the same in any suffix that still contains that position |
| Prep.StripThousandsExample | cleaning_utils.py:2647 | `$25,000` becomes `$25000` |
| Prep.StripThousandsNoOverlapExample | cleaning_utils.py:2647 | matches do not overlap: `1,2,3` becomes `12,3` |
| Prep.CollapsePossessives | cleaning_utils.py:2649 | the possessive step deletes apostrophes and nothing else, and never lengthens the text |
| Prep.CollapsePossessivesChangesIff | cleaning_utils.py:2649 | the possessive step changes the text exactly when some position at a word boundary starts a run of non-whitespace characters that reaches an apostrophe followed by a lowercase `s` |
| Prep.CollapsesWordPossessive | cleaning_utils.py:2649 | a word that starts with a word character, has no whitespace and no `'s` of its own, followed by `'s`, loses the apostrophe: `x's` becomes `xs` |
| Prep.CollapsePossessivesFirst | cleaning_utils.py:2649 | at the leftmost possessive match, ending at its nearest `'s`, the output is the text up to the apostrophe, then the `s`, then the scan resumed after the `s`: only that apostrophe goes, nothing before it changes |
| Prep.CollapsePossessivesNeedsLowerS | cleaning_utils.py:2649 | without an apostrophe followed by a lowercase `s` the possessive step changes nothing (no `re.IGNORECASE`) |
| Prep.CollapsePossessivesExample | cleaning_utils.py:2649 | `John's` becomes `Johns` |
| Prep.CollapsePossessivesUpperExample | cleaning_utils.py:2649 | `JOHN'S` is left as it is |
| Prep.CharToSpace | cleaning_utils.py:2651-2653 | `re.sub(c, " ", s)` is a one-for-one map that puts a space exactly where `c` was |
| Prep.PrepText | cleaning_utils.py:2645-2654 | the output of `prep_text` contains no `-` and no `/` |
| Prep.PrepTextSpacesOutDashesAndSlashes | cleaning_utils.py:2650-2653 | the last two steps of `prep_text` keep the length and put a space exactly where a hyphen or slash was |
| Finaliser.ReplaceWithSpace | cleaning_utils.py:2671 | `text.replace(c, " ")` keeps the length, leaves no `c` (unless `c` is a space), keeps every other character, and changes characters only into spaces |
| Finaliser.BlankEach | cleaning_utils.py:2670-2671 | the punctuation loop blanks exactly the characters in the list of marks, position by position |
| Finaliser.BlankPunctuation | cleaning_utils.py:2670-2671 | every character of `all_punctuation`, and no other character, becomes a space, so no punctuation is left |
| Finaliser.Split | cleaning_utils.py:2672 | `text.split()` yields non-empty words free of whitespace |
| Finaliser.Join | cleaning_utils.py:2672 | splitting words joined by single spaces gives back the words |
| Finaliser.SplitAtSpace | cleaning_utils.py:2672 | `split()` breaks the text at any whitespace character: splitting `x + [q] + y` gives the words of `x` then those of `y` |
| Finaliser.JoinIsNormal | cleaning_utils.py:2672 | `" ".join` of words has no leading or trailing whitespace and never two whitespace characters in a row |
| Finaliser.JoinAppend | cleaning_utils.py:2672 | joining two word lists is joining each and gluing the results with one space |
| Finaliser.Finalize | cleaning_utils.py:2670-2673 | the finaliser's output has no punctuation, no upper-case letter, no leading, trailing or doubled whitespace, and only plain spaces |
| Finaliser.FinalizeIdempotent | cleaning_utils.py:2670-2673 | applying the finaliser twice equals applying it once |
| Finaliser.FinalizeKeepsContent | cleaning_utils.py:2670-2673 | every character that is neither whitespace nor punctuation survives, in order and lowered; nothing else is kept |
| Finaliser.DollarSurvives | cleaning_utils.py:6-8 | a `$` in the input is still there after the finaliser |
| Finaliser.FinalizeSeparates | cleaning_utils.py:2670-2672 | a punctuation mark or whitespace character between two texts becomes a word break, not a deletion: the output is that of the two parts joined by one space |
| Cleaner.Clean | cleaning_utils.py:2657-2674 | a missing value gives `""`; every output is in canonical form |
| Cleaner.CleanText | cleaning_utils.py:2657-2674 | the loops of the source compute exactly `Clean` |
| Cleaner.Schedule | cleaning_utils.py:2663-2668 | the `re.sub` calls of the cleaner: every substitution before every removal, substitutions in non-decreasing priority and each exactly once, removals in list order |
| Cleaner.CleanRunsSchedule | cleaning_utils.py:2657-2674 | the cleaner is the finaliser applied to the prepared text after the schedule has run step by step |
| Cleaner.CleanSplitsAtPriority | cleaning_utils.py:2663-2668 | all substitutions below any priority `p` have run before any rule at `p` or above sees the text, and the removals run last |
| CatalogueFacts.CatalogueShape | cleaning_utils.py:39-2642 | the catalogue holds 529 substitutions and the removals "OBSCIS", "MO Suffix" and "Statute Prefix", in that order |
| CatalogueFacts.IllegalSparesMentallyIll | cleaning_utils.py:293-297 | the "illegal" rule leaves `mentally ill` unchanged |
| CatalogueFacts.IllegalMatchesIll | cleaning_utils.py:293-297 | the "illegal" rule matches the three letters `ill` at a position exactly when they form a whole word, in any case, not preceded by `mentally ` |
| CatalogueFacts.IllegalRewritesIll | cleaning_utils.py:293-297 | for example, `an ILL` becomes `an illegal` |
| CatalogueFacts.AttemptedSparesAtRisk | cleaning_utils.py:446-450 | "Attempted 2" leaves `at risk` unchanged |
| CatalogueFacts.AttemptedMatchesAt | cleaning_utils.py:446-450 | "Attempted 2" matches at a position exactly when the whole word `at` stands there and ` risk` does not follow it; the lookahead has no `\b`, so `at risky` is spared too |
| CatalogueFacts.AttemptedSparesAtRisky | cleaning_utils.py:446-450 | `at risky` is left unchanged, because ` risk` is only a prefix test |
| CatalogueFacts.AttemptedRewritesAt | cleaning_utils.py:446-450 | for example, `at rob` becomes `attempted rob` |
| CatalogueFacts.OffenseSparesByOff | cleaning_utils.py:1041-1045 | the "offense" rule leaves `by off` unchanged |
| CatalogueFacts.LessThan2IsDead | cleaning_utils.py:53 | "Less Than 2" leaves every text unchanged |
| CatalogueFacts.GreaterThan2IsDead | cleaning_utils.py:56 | "Greater Than 2" leaves every text unchanged |
| CatalogueFacts.WithOutIgnoresSeparatedWords | cleaning_utils.py:59 | "With Out", whose `{sep}` is literal, leaves `w o` unchanged |
| CatalogueFacts.WithOutMatchesLiteralSep | cleaning_utils.py:59 | "With Out" rewrites the literal text `w{sep}o` to `without` |
| CatalogueFacts.Year2GuardIsVacuous | cleaning_utils.py:616-620 | "year 2" matches exactly where `yr\b` without the guard does |
| CatalogueFacts.Year2SplitsNumberAndUnit | cleaning_utils.py:616-620 | having no leading `\b`, "year 2" rewrites `yr` glued to a number: `10yr` becomes `10 year` |
| CatalogueFacts.HeroineListedTwice | cleaning_utils.py:2453-2462 | the "heroine" rule appears twice in a row, identical |
| CatalogueFacts.AssaultAndBatteryNamedTwice | cleaning_utils.py:1102-1111 | two adjacent rules share the description "assault and battery 2" but differ in their lookahead |

## Left out

- Python `re` in general is not modelled. The 231 rules built from `sep` and
  the "Statute Prefix" removal need real backtracking over variable-width
  runs. They are `Composite` patterns whose matches an `Oracle` supplies,
  and every pipeline property is proved for every oracle.
- `Composite` patterns may only return non-empty matches that the text can
  hold. Python can also match `sep` as an empty `\b`, but a whole composite
  rule never matches empty text in the catalogue. The oracle's `Len` result
  type encodes that.
- Unicode word characters, digits and case are left out. `\w`, `\d`, `\b`,
  `str.lower` and `re.IGNORECASE` are ASCII in the model, while Python's
  `str` patterns and `lower()` are Unicode-aware. Python's `\d` also
  matches every Unicode decimal digit, which affects the comma step of
  `prep_text` and the digit guards of the rules. Python's `lower()` also
  lowers non-ASCII capitals (`É` becomes `é`), which the model leaves
  as they are. Texts with non-ASCII letters or digits may behave
  differently. Whitespace, and with it `\s`, `\S` and `split()`, follows
  `str.isspace` in full.
- `pd.isnull` is modelled as `Option<string>`: `None` is any missing value.
  Non-string inputs other than a missing value are not modelled.
- `Rules.SortByPriority`: Python's `sorted` uses Timsort, and the model uses
  an insertion sort. Both are stable sorts by the same key, so they give
  the same list. The model proves sortedness, permutation and stability, but
  not that these three determine the list.
- Compiling the patterns (`re.compile` in `__post_init__`,
  cleaning_utils.py:24-25, 35-36) is not modelled. A rule holds its pattern
  as data.
- `onnx_model_utils.py` (model download, ONNX session, tokenizer, softmax
  scores, caching), `app.py` (Streamlit interface, file reading, batching)
  and `tests/test_streamlit.py` (a browser test of the classifier) are I/O,
  foreign libraries or floating point, and are not part of this model.
- `Cleaner.Clean`: its contract states the null case and the canonical shape
  of the output, not which words survive. That depends on the catalogue and
  the oracle, and `Cleaner.CleanRunsSchedule`, the `Finaliser` lemmas and the
  `CatalogueFacts` lemmas state it in pieces.
