# createMapping: offsets in a whitespace-depleted sentence

This project models the one piece of self-contained logic in the Ephyra NLP wrapper
layer: `StanfordParser.createMapping`. Given a sentence, it builds an ordered list of
range maps (`DeltaRangeMap(begin, end, delta)`). Each one says that offsets `d` with
`begin <= d < end` in the *whitespace-depleted* sentence (every whitespace character
removed) correspond to offset `d + delta` in the sentence itself.

The model has four modules:

- `WhitespacePattern` (`whitespace_pattern.dfy`) covers three things. It defines the
  pattern `\s+` with Java's ASCII whitespace class (space, `\t`, `\n`, `\x0B`, `\f`,
  `\r`). It models `Matcher.find()` as the function `NextRun`: the leftmost greedy match
  at or after the matcher's position. `Runs` is the sequence of matches a
  `while (find())` loop reports. The module also defines the depleted sentence
  (`Deplete`) and the whitespace count of a prefix (`WhitespaceBefore`). Lemmas prove
  that the matches are exactly the maximal whitespace runs, in increasing order, with
  none missed.
- `StanfordParser` (`stanford_parser.dfy`) holds the `DeltaRangeMap` record and
  `CreateMapping`. The record stands for the objects built at
  src/main/java/info/ephyra/nlp/StanfordParser.java:124 and :131 as (begin, 0, delta).
  Their `end` is assigned at lines 129 and 137 and read at 131. Their `delta` is read
  at lines 129, 131 and 137. The first field's name, `begin`, is this model's own: the
  class is not part of this model. `CreateMapping` is the source's loop: one open range map, a
  cumulative delta, closing on each new match, and closing the trailing map after the
  loop. It is proved equal to `Mapping`, a closed-form description of each range map:
  - `begin` is the run's start less the whitespace before it.
  - `end` is the next run's start (or the sentence length) less the whitespace before
    that point.
  - `delta` is the whitespace count up to the run's end.
- `MappingProperties` (`mapping_properties.dfy`) proves what the mapping promises: the
  empty mapping exactly when there is no whitespace (and then it is the identity),
  contiguity, strictly growing deltas, the ends, the character-level round trip,
  disjointness and coverage.
- `MappingExamples` (`mapping_examples.dfy`) works out three concrete sentences.

Three choices follow the code:

- Whitespace is Java's ASCII `\s`, not a Unicode-aware class.
- Whitespace is removed rather than collapsed to one separator. This is what the doc
  comment of `createMapping` says ("white-space depleted").
- A sentence without whitespace (including the empty one) yields the empty list, not a
  single identity interval.

## Model

| member | source | states |
|---|---|---|
| `StanfordParser.CreateMapping` | src/main/java/info/ephyra/nlp/StanfordParser.java:107-142 | The loop over the matches, with its open range map and cumulative delta, returns exactly the closed-form mapping: one range map per whitespace run, with begin, end and delta as described above. It has no precondition: every sentence, the empty one included, gets its mapping (offsets count the sentence's characters; see "## Left out" for UTF-16). |
| `MappingProperties.MappingEmptyIff` | src/main/java/info/ephyra/nlp/StanfordParser.java:114-141 | The mapping is empty if and only if the sentence has no whitespace character (the empty sentence included). An empty mapping is the identity: the depleted sentence equals the sentence. |
| `MappingProperties.MappingFirst` | src/main/java/info/ephyra/nlp/StanfordParser.java:119-124 | A non-empty mapping's first range map begins at the first run's start, with delta equal to that run's length. |
| `MappingProperties.MappingContiguous` | src/main/java/info/ephyra/nlp/StanfordParser.java:129-131 | Each range map begins exactly where the previous one ends. |
| `MappingProperties.MappingDeltas` | src/main/java/info/ephyra/nlp/StanfordParser.java:124-131 | Each delta is the previous one plus the length of its own run, so deltas strictly increase. The last delta is the total whitespace count, which is the sentence length minus the depleted length. |
| `MappingProperties.MappingEnds` | src/main/java/info/ephyra/nlp/StanfordParser.java:129-138 | Every range map except the last ends at the next run's start minus its delta and has begin < end. The last ends at the sentence length minus its delta, which is the depleted length, and has begin <= end. |
| `MappingProperties.MappingRoundTrip` | src/main/java/info/ephyra/nlp/StanfordParser.java:101-106 | For every offset d inside a range map, d is a valid offset of the depleted sentence, offset d + delta of the sentence holds a non-whitespace character, and that character is the one that lands at d once whitespace is removed (d + delta less the whitespace before it is d). So `Deplete(s)[d] == s[d + delta]`. |
| `MappingProperties.MappingIdentityBelow` | src/main/java/info/ephyra/nlp/StanfordParser.java:101-106 | Every depleted offset below the first range map's begin, or every depleted offset when the mapping is empty, maps to itself: `Deplete(s)[d] == s[d]`. |
| `MappingProperties.MappingDisjoint` | src/main/java/info/ephyra/nlp/StanfordParser.java:126-131 | Range maps do not overlap: a later one begins no earlier than an earlier one ends. |
| `MappingProperties.MappingCoverage` | src/main/java/info/ephyra/nlp/StanfordParser.java:126-139 | Every depleted offset from the first range map's begin up to the depleted length lies in some range map. |
| `WhitespacePattern.IsWhitespace` | src/main/java/info/ephyra/nlp/StanfordParser.java:34 | The class `\s` of the pattern is ASCII only: a character is whitespace exactly when it is the space or a control character from tab to carriage return (tab, line feed, vertical tab, form feed, carriage return). |
| `WhitespacePattern.RunsFrom` | src/main/java/info/ephyra/nlp/StanfordParser.java:114-116 | The matches that a `while (find())` loop reports when resumed at a position: each one starts at or after that position, is non-empty and lies within the sentence. |
| `WhitespacePattern.Runs` | src/main/java/info/ephyra/nlp/StanfordParser.java:113-116 | The matches the loop of `createMapping` reads, from offset 0: each is a non-empty range of the sentence, and each begins no earlier than the previous one ends. |
| `WhitespacePattern.NextRun` | src/main/java/info/ephyra/nlp/StanfordParser.java:114-116 | `find()` resumed at a position reports a match whose start is at or after that position. No whitespace precedes it from there, it is all whitespace, and it stops before a non-whitespace character or at the end. It reports nothing only when no whitespace remains. |
| `WhitespacePattern.RunEnd` | src/main/java/info/ephyra/nlp/StanfordParser.java:34 | The greedy `\s+` match that begins at i extends over whitespace only and stops at the first non-whitespace character or at the end. |
| `WhitespacePattern.NextRunIsLeftmostRun` | src/main/java/info/ephyra/nlp/StanfordParser.java:114-116 | `find()` is determined by its contract: the leftmost maximal run at or after the position is the match reported. |
| `WhitespacePattern.NextRunNoneIff` | src/main/java/info/ephyra/nlp/StanfordParser.java:114 | `find()` fails exactly when no whitespace is left after the position. |
| `WhitespacePattern.RunsResume` | src/main/java/info/ephyra/nlp/StanfordParser.java:114-116 | After n matches, the matcher stands at the end of match n-1 (or at 0). The next `find()` reports match n, or nothing once all matches are reported. |
| `WhitespacePattern.RunsAreMaximal` | src/main/java/info/ephyra/nlp/StanfordParser.java:34 | Every match of `\s+` is a maximal whitespace run (all whitespace, not extendable on either side), and the matches are in strictly increasing order. |
| `WhitespacePattern.RunsCoverWhitespace` | src/main/java/info/ephyra/nlp/StanfordParser.java:113-116 | Every whitespace character of the sentence lies inside one of the matches, so no maximal run is missed. |
| `WhitespacePattern.EveryMaximalRunIsAMatch` | src/main/java/info/ephyra/nlp/StanfordParser.java:113-116 | Every maximal whitespace run of the sentence is one of the matches. Together with `RunsAreMaximal`, the matches are exactly the maximal runs, so the mapping has one range map per maximal run. |
| `WhitespacePattern.RunsEmptyIff` | src/main/java/info/ephyra/nlp/StanfordParser.java:114 | There is no match at all exactly when the sentence contains no whitespace character. |
| `WhitespacePattern.RunsShape` | src/main/java/info/ephyra/nlp/StanfordParser.java:113-116 | There is no whitespace before the first match, between consecutive matches, or after the last match, and every match is a maximal run. |
| `WhitespacePattern.Deplete` | src/main/java/info/ephyra/nlp/StanfordParser.java:101-106 | The "white-space depleted version" of the sentence contains no whitespace character and is shorter than the sentence by exactly the number of whitespace characters. |
| `WhitespacePattern.DepletedPrefixHasNoWhitespace` | src/main/java/info/ephyra/nlp/StanfordParser.java:101-106 | Depleting any prefix of the sentence leaves no whitespace character. |
| `WhitespacePattern.DepleteAt` | src/main/java/info/ephyra/nlp/StanfordParser.java:101-106 | A non-whitespace character at offset p of the sentence sits at offset p minus the whitespace before it in the depleted sentence. |
| `MappingExamples.QuickFoxMapping` | src/main/java/info/ephyra/nlp/StanfordParser.java:107-142 | For "The  quick   fox" the mapping is [(3, 8, 2), (8, 11, 5)]. |
| `MappingExamples.LeadingMapping` | src/main/java/info/ephyra/nlp/StanfordParser.java:107-142 | For "  leading" the mapping is [(0, 7, 2)]. Depleted offset 0 maps to offset 2. |
| `MappingExamples.NoSpacesMapping` | src/main/java/info/ephyra/nlp/StanfordParser.java:114-141 | For "NoSpacesHere" the mapping is empty and the depleted sentence is the sentence. |

## Left out

- `StanfordParser.CreateMapping`: Java's `start()`, `end()` and `sentence.length()`
  count UTF-16 code units (Java `char`s), while the model's `string` is a sequence of
  Unicode scalar values, which cannot hold a lone surrogate. The model reads the
  sentence as its sequence of Java `char`s. For a sentence with characters outside
  the Basic Multilingual Plane it is faithful only under that reading: on "a😀 b" Java
  counts the emoji as two units and reports [(3, 4, 1)], while the model applied to
  the scalar-value string reports [(2, 3, 1)]. The loop only tests characters for
  whitespace, and no surrogate is whitespace, so every proof carries over to code units.

- `StanfordParser.parse` and `getPCFGScore`: they call into the Stanford tokenizer and
  `LexicalizedParser`, whose code is not part of this model. They lock the parser with
  `synchronized`, and the PCFG score is a floating-point value. The regex cleanup of
  the tree text acts on what that library returns.
- `StanfordParser.initialize`, `destroy` and `main`: static singleton set-up, model
  loading, and file I/O.
- `EphyraPart.java` and `StanfordPosTagger.java`: sequential initialization of external
  libraries, and marshalling around the maximum-entropy tagger. Neither has logic of
  its own.
- The classes `DeltaRangeMap` and `RangeMap` are not part of this model. `DeltaRangeMap`
  is a plain record of the three fields that `createMapping` uses. It has no lookup
  operation, and neither does the list.
- No lookup of a depleted offset in the list is modelled: `createMapping` only builds
  the list, and the methods of `RangeMap` are not part of this model.
- Object identity: the list is a value (`seq`), not a `LinkedList` object. Assigning the
  open range map's `end` field is modelled as a record update. Nothing else refers to
  that object until it is appended, so no aliasing is lost.
- Java `int` bounds are not modelled. All offsets and deltas lie between 0 and the
  sentence length, which a Java `String` keeps below 2^31, so no overflow can occur.
