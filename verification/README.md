# Irregular Unicode block detector

A Dafny model of `IrregularUnicodeBlockDetector`, the part of the messenger
that renders an XMPP address `local@domain/resource` and marks the characters
of its local-part written in a script other than the local-part's main one.
For example, it marks the Cyrillic 'а' in "pаypal@example.com".

The detector works in five steps:

1. **`map`** walks the local-part code point by code point. It decodes UTF-16
   surrogate pairs as section 3.9 of the Unicode Standard describes. It files
   each code point under its Unicode block, after `normalize` has folded
   LATIN_1_SUPPLEMENT into BASIC_LATIN.
2. **`eliminateFirstAndGetCodePoints`** elects the majority block and removes
   it. The majority is the first strictly largest group in the map's iteration
   order, starting from BASIC_LATIN with size 0. The method then collects the
   code points of every other group.
3. **`create`** joins the quoted minority code points with `|`.
4. **`find`** remembers one pattern per address in a 100-entry
   least-recently-used cache.
5. **`style`** writes the address. It marks every non-empty match of the
   pattern in the local-part.

## How the model is built

Modules:

- `Utf16`: Java's `codePointAt`, `charCount` and `toChars` over UTF-16 code
  units.
- `UnicodeBlocks`: the blocks and the normalization table.
- `ScriptGroups`: `map` and `eliminateFirstAndGetCodePoints`. Both are
  imperative loops, proved against the recursive specification functions
  `Partition` and `Elect`.
- `Patterns`: `create`, and the `Matcher.find` loop of `style`.
- `Addresses`: the address layout.
- `Detector`: the detector class. It holds the cache as a map plus its keys
  from least to most recently used.

Foreign parts are parameters of the class:

- `classify` stands for `Character.UnicodeBlock.of`.
- `hashOrder` gives the iteration order of the `HashMap` that `map` builds for
  a given key set.

Every property is proved for every `classify` and for every `hashOrder` that
lists each key exactly once.

## Model

| member | source | states |
|---|---|---|
| UnicodeBlocks.Normalize | src/main/java/de/pixart/messenger/utils/IrregularUnicodeBlockDetector.java:56-70 | LATIN_1_SUPPLEMENT maps to BASIC_LATIN; every other block, the null block included, maps to itself; no result is LATIN_1_SUPPLEMENT |
| Utf16.CodePointAt | src/main/java/de/pixart/messenger/utils/IrregularUnicodeBlockDetector.java:106 | the code point spans two units exactly when a high surrogate is followed by a low one; otherwise it is the unit itself; it never runs past the end |
| Utf16.StepKeepsBoundary | src/main/java/de/pixart/messenger/utils/IrregularUnicodeBlockDetector.java:116 | stepping by `charCount` moves forward, stays within the text and never lands inside a surrogate pair |
| Utf16.ToCharsRoundTrip | src/main/java/de/pixart/messenger/utils/IrregularUnicodeBlockDetector.java:115 | decoding `toChars(cp)` gives `cp` back, so a code point's string form identifies it |
| Utf16.DecodeEncodeRoundTrip | src/main/java/de/pixart/messenger/utils/IrregularUnicodeBlockDetector.java:104-117 | re-encoding the code points the walk reads gives back the text unit for unit |
| ScriptGroups.MapLocal | src/main/java/de/pixart/messenger/utils/IrregularUnicodeBlockDetector.java:101-119 | the offset loop builds exactly `Partition` of the local-part's code points, keeping offsets on code point boundaries and ending at the text's length |
| ScriptGroups.PartitionPlacesEach | src/main/java/de/pixart/messenger/utils/IrregularUnicodeBlockDetector.java:107-115 | every code point is in the group of its normalized block; every group member occurs in the local-part under that block; each group keeps all duplicates |
| ScriptGroups.PartitionIsFilter | src/main/java/de/pixart/messenger/utils/IrregularUnicodeBlockDetector.java:108-115 | a block has a group exactly when one of its code points occurs, and the group lists those code points in text order |
| ScriptGroups.PartitionGroupsNonEmpty | src/main/java/de/pixart/messenger/utils/IrregularUnicodeBlockDetector.java:101-119 | no group is empty, and the map is empty exactly when the local-part is |
| ScriptGroups.PartitionSizesSum | src/main/java/de/pixart/messenger/utils/IrregularUnicodeBlockDetector.java:101-119 | in any iteration order, the group sizes add up to the number of code points |
| ScriptGroups.Elect | src/main/java/de/pixart/messenger/utils/IrregularUnicodeBlockDetector.java:122-129 | the elected size is at least every visited group's size; with size 0 the block stays BASIC_LATIN; otherwise it is a visited block of exactly that size |
| ScriptGroups.ElectFirstMaximal | src/main/java/de/pixart/messenger/utils/IrregularUnicodeBlockDetector.java:125 | because the comparison is strict, every group visited before the elected one is strictly smaller |
| ScriptGroups.MajorityIsPresent | src/main/java/de/pixart/messenger/utils/IrregularUnicodeBlockDetector.java:122-130 | for a non-empty map, the removed block is one of its keys and no group is larger |
| ScriptGroups.UniqueMaximumWins | src/main/java/de/pixart/messenger/utils/IrregularUnicodeBlockDetector.java:122-130 | a strictly largest group is removed whatever the iteration order |
| ScriptGroups.EliminateFirstAndGetCodePoints | src/main/java/de/pixart/messenger/utils/IrregularUnicodeBlockDetector.java:121-136 | the map loses exactly the elected majority key and keeps every other entry; the returned set is exactly the code points of the remaining groups |
| ScriptGroups.CollectGathersMembers | src/main/java/de/pixart/messenger/utils/IrregularUnicodeBlockDetector.java:132-134 | the `addAll` loop collects a code point exactly when some visited remaining group holds it |
| ScriptGroups.MinorityIff | src/main/java/de/pixart/messenger/utils/IrregularUnicodeBlockDetector.java:130-135 | a code point is in the returned set exactly when it occurs in the local-part under a block other than the majority |
| ScriptGroups.SingleBlockHasNoMinority | src/main/java/de/pixart/messenger/utils/IrregularUnicodeBlockDetector.java:121-136 | a local-part in one normalized block, or an empty one, yields the empty set |
| Patterns.AppendAlternative | src/main/java/de/pixart/messenger/utils/IrregularUnicodeBlockDetector.java:152-156 | one round of the loop keeps the text an alternation of quoted code points, adds exactly one literal and grows the text by one alternative |
| Patterns.Create | src/main/java/de/pixart/messenger/utils/IrregularUnicodeBlockDetector.java:150-159 | the pattern is a bar-separated alternation whose literals are exactly the given set, with 2n-1 pieces for n code points; the empty set gives the empty pattern |
| Patterns.NextMatch | src/main/java/de/pixart/messenger/utils/IrregularUnicodeBlockDetector.java:83 | the empty pattern matches the empty string where the search starts; otherwise a match lies at or after the start and covers exactly one quoted code point |
| Patterns.NextMatchIsNextSpan | src/main/java/de/pixart/messenger/utils/IrregularUnicodeBlockDetector.java:83 | a search finds the next literal occurrence and skips none; no match means none is left |
| Patterns.MarkMatches | src/main/java/de/pixart/messenger/utils/IrregularUnicodeBlockDetector.java:82-87 | the `find` loop marks exactly the occurrences of the pattern's literals, in order; the zero-length guard leaves the empty pattern's matches unmarked |
| Patterns.NothingToMark | src/main/java/de/pixart/messenger/utils/IrregularUnicodeBlockDetector.java:84 | with no literals, nothing is marked |
| Patterns.LiteralSpansWellFormed | src/main/java/de/pixart/messenger/utils/IrregularUnicodeBlockDetector.java:82-87 | every mark is non-empty and lies in the local-part; it covers one literal code point and splits no surrogate pair; marks are ascending and disjoint |
| Patterns.LiteralSpansMarkEachLiteral | src/main/java/de/pixart/messenger/utils/IrregularUnicodeBlockDetector.java:82-87 | reading the marks in order gives the text's literal code points in order, one mark per occurrence |
| Addresses.Layout | src/main/java/de/pixart/messenger/utils/IrregularUnicodeBlockDetector.java:79-98 | with a local-part, the text starts with `local@`; without one (and with no '@' in the other parts) there is no '@'; with no local-part and no domain-part, the text is empty and the resource-part is dropped |
| Addresses.LayoutRoundTrip | src/main/java/de/pixart/messenger/utils/IrregularUnicodeBlockDetector.java:79-98 | splitting the written text as section 3.2 of RFC 7622 does gives back the address |
| Detector.MinorityPattern | src/main/java/de/pixart/messenger/utils/IrregularUnicodeBlockDetector.java:144 | `create(eliminateFirstAndGetCodePoints(map(jid)))` is an alternation of exactly the local-part's minority code points |
| Detector.MarksAreOutsideMajority | src/main/java/de/pixart/messenger/utils/IrregularUnicodeBlockDetector.java:81-87 | the marks cover, in order and once per occurrence, exactly the local-part's code points whose normalized block is not the majority block |
| Detector.SingleScriptIsUnmarked | src/main/java/de/pixart/messenger/utils/IrregularUnicodeBlockDetector.java:81-87 | a local-part in one normalized block gets no marks |
| Detector.HitKeepsCacheValid | src/main/java/de/pixart/messenger/utils/IrregularUnicodeBlockDetector.java:140-143 | a hit makes the key most recently used and keeps the cache invariant |
| Detector.PutKeepsCacheValid | src/main/java/de/pixart/messenger/utils/IrregularUnicodeBlockDetector.java:144-145 | storing a new entry, and evicting the eldest one when past capacity, keeps the cache invariant |
| Detector.IrregularUnicodeBlockDetector.constructor | src/main/java/de/pixart/messenger/utils/IrregularUnicodeBlockDetector.java:72 | the cache starts empty and valid |
| Detector.IrregularUnicodeBlockDetector.CacheIsBounded | src/main/java/de/pixart/messenger/utils/IrregularUnicodeBlockDetector.java:72 | the cache never holds more than 100 entries |
| Detector.IrregularUnicodeBlockDetector.Find | src/main/java/de/pixart/messenger/utils/IrregularUnicodeBlockDetector.java:138-148 | on a hit or a miss, the pattern matches exactly the local-part's minority code points, and the key is then cached; a hit returns the stored pattern and only reorders recency; a miss stores the pattern as most recent and evicts the eldest entry past 100 |
| Detector.IrregularUnicodeBlockDetector.MarkLocal | src/main/java/de/pixart/messenger/utils/IrregularUnicodeBlockDetector.java:81-87 | the local-part's marks are the spans of its minority code points; the cache stays valid and changes as one `find` changes it: the key is cached and most recently used, a hit keeps every entry, a miss adds the key and evicts the eldest entry once 100 are held |
| Detector.IrregularUnicodeBlockDetector.Style | src/main/java/de/pixart/messenger/utils/IrregularUnicodeBlockDetector.java:78-99 | the text is the address layout; with a local-part the marks are the spans of its minority code points and the cache changes as one `find` changes it, so the address is then cached as most recently used and a second call hits; without one there are no marks and the cache is untouched |

## Left out

- `style(Context, Jid)` (lines 74-76), `Color`, `ForegroundColorSpan` and the `Spannable` types. A rendering is its text plus a list of `[start, end)` spans.
- The `synchronized (CACHE)` block. `find` is one sequential step.
- `Character.UnicodeBlock.of` and the Unicode block tables. They are the uninterpreted `classify`. Only BASIC_LATIN, LATIN_1_SUPPLEMENT and the null block are named.
- The `java.util.regex` engine and `Pattern.quote`. A pattern is its list of quoted code points and bars. Matching is modelled only for patterns `create` writes: a scan over code point boundaries. A quoted lone surrogate matching one half of a surrogate pair is not modelled.
- Group entries are code points, not Java strings. `Utf16.ToCharsRoundTrip` shows the string form identifies the code point.
- HashMap iteration order is a function of the key set only (`hashOrder`). In Java it can also depend on the map's history. The election lemmas hold for every order.
- HashSet iteration order in `create` is an unspecified choice.
- Patterns.Create: does not fix the order of the alternatives, because it follows HashSet iteration order. It states the literal set and the shape.
- Detector.IrregularUnicodeBlockDetector.Find: states the cached pattern's literal set, which fixes what it matches, rather than its exact text. That text depends on HashSet iteration order.
- Detector.IrregularUnicodeBlockDetector.Find: requires a local-part. In the source, `map` would throw a NullPointerException without one, and `style` only calls `find` when the local-part is present.
- ScriptGroups.EliminateFirstAndGetCodePoints: the in-place `map.remove` is modelled as returning the map's new state. The caller discards that map, so no aliasing is lost.
- `LruCache` internals beyond least-recently-used order and the 100-entry bound: hit/miss statistics, `sizeOf` (every entry counts 1) and the default `create` hook (null). `rocks.xmpp.addr.Jid` parsing is left out; addresses are compared by value.
- The rest of the repository, including `XmppActivity`, is not part of this model.
