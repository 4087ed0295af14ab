# asset_parser sensor catalogue, modelled in Dafny

`asset_parser` reads a JSON catalogue of building-automation sensors and
normalises it. Each sensor has an id, a display name, SkySpark marker tags,
a type (`Bool`, `Numeric`, `String`) and an optional unit. The program prints
the normalised catalogue and reports every rule the catalogue breaks. This
project models that core of `src/main.rs`:

- `is_tag_name`: the SkySpark marker-tag name check (module `Tags`);
- `clean_raw_sensors`: the canonical form (module `Normalize`). It trims the
  fields and the tags, sorts every tag list, and sorts the list by id with a
  stable sort. The string primitives live in `Text`, the stable sort in
  `Sorting`, and mapping over a list in `Seqs`;
- `unique_ids_count`: sort, dedup in place, count (module `UniqueIds`);
- the validation loop of `parse_sensors` (module `Validate`). It returns the
  findings as a sequence of `Finding` values in the order the source prints
  them, and `Message` gives the exact printed line;
- `units`: the unit catalogue parsed from a line-oriented reference text
  (module `Units`);
- `parse_sensors` minus its I/O (module `ParseSensors`): units, then
  cleaning, then validation.

Each imperative piece of the source is a method with loop invariants, proved
against a specification function:

- `is_tag_name` against `ValidTagName`;
- the `units` loop against `UnitSet`;
- the in-place dedup against the set of ids;
- the validation loops against `Findings`.

Lemmas then state what the specification functions promise.

Strings are sequences of Unicode scalar values. Whitespace is the Unicode
White_Space set, which is what `char::is_whitespace` tests. `String`
ordering is lexicographic on code points, which is the same as Rust's
byte-wise UTF-8 order.

Behaviour of the code that the model states:

- Each per-sensor message reads `Sensor id=<id> ...` (src/main.rs:54-78);
  `Validate.Message` and `Validate.MessageNamesSensor` state it.
- `unique_ids_count` only counts the distinct ids (src/main.rs:88-94).
  `parse_sensors` compares that count with the list length
  (src/main.rs:83-85), so one aggregate finding is emitted however many ids
  repeat; `Validate.IdsNotUniqueCount` states it.

## Model

| member | source | states |
|---|---|---|
| `Tags.IsTagName` | src/main.rs:151-171 | true exactly for a non-empty string whose first character is an ASCII lowercase letter and whose later characters are ASCII letters, digits or `_`; so false for the empty string |
| `Tags.ValidTagNameIsTrimmed` | src/main.rs:151-171 | a legal tag name has no surrounding whitespace, so the trimming in `clean_raw_sensors` leaves it as it is |
| `Text.IsWhitespace` | src/main.rs:108-109 | the whitespace `trim` removes; among ASCII characters it is exactly tab, line feed, vertical tab, form feed, carriage return and space |
| `Text.TrimStart` | src/main.rs:108-109 | what is left after dropping leading whitespace is empty or starts with a non-whitespace character |
| `Text.TrimStartSlice` | src/main.rs:108-109 | dropping leading whitespace keeps a suffix of the input and drops only whitespace |
| `Text.TrimEnd` | src/main.rs:108-109 | what is left after dropping trailing whitespace is empty or ends with a non-whitespace character |
| `Text.TrimEndSlice` | src/main.rs:108-109 | dropping trailing whitespace keeps a prefix of the input and drops only whitespace |
| `Text.Trim` | src/main.rs:108-109 | neither end of the result is whitespace |
| `Text.TrimIsSlice` | src/main.rs:108-109 | the trimmed string is a contiguous slice of the input, and everything cut off on either side is whitespace |
| `Text.TrimFixedIff` | src/main.rs:108-109 | trimming leaves a string unchanged if and only if neither end is whitespace |
| `Text.TrimIdempotent` | src/main.rs:108-109 | trimming twice gives the same as trimming once |
| `Text.StrLeLexicographic` | src/main.rs:118 | the string order is lexicographic: `a` is at most `b` exactly when `a` is a prefix of `b` or, at the first position where they differ, `a` has the smaller character |
| `Text.StrLeReflexive` | src/main.rs:118 | the id order compares every string as at most itself |
| `Text.StrLeAntisymmetric` | src/main.rs:118 | two strings each at most the other are equal |
| `Text.StrLeTransitive` | src/main.rs:118 | the id order is transitive |
| `Text.StrLeTotal` | src/main.rs:118 | any two strings are comparable |
| `Text.Split` | src/main.rs:178 | splitting on a character gives at least one piece and no piece contains the separator |
| `Text.JoinSplit` | src/main.rs:178 | gluing the pieces of a split back together with the separator gives the original string |
| `Text.SplitJoin` | src/main.rs:178 | splitting a separator-joined list of separator-free pieces gives back exactly those pieces, empty ones included |
| `Seqs.MapSeq` | src/main.rs:89-90 | `iter().map(f).collect()` keeps the length and puts `f` of the i-th element at position i |
| `Seqs.MapSeqPermutation` | src/main.rs:97-117 | mapping two permutations of each other gives permutations of each other |
| `Sorting.SortBy` | src/main.rs:118 | the sort returns a permutation of its input (same multiset, same length) whose keys never decrease |
| `Sorting.SortByStable` | src/main.rs:118 | for every key, the elements with that key keep their input order (the sort is stable) |
| `Sorting.SortBySortedIsIdentity` | src/main.rs:105 | sorting an already sorted list leaves it unchanged |
| `Sorting.SortedUnique` | src/main.rs:118 | two sorted permutations of each other are equal when no two distinct elements share a key |
| `Sorting.SortByOrderIndependent` | src/main.rs:118 | when no two distinct elements share a key, the sorted list does not depend on the input order |
| `Normalize.CleanTags` | src/main.rs:100-105 | the cleaned tag list has as many tags as before (no deduplication), is sorted, holds exactly the trimmed input tags, and every tag is trimmed |
| `Normalize.CleanTagsOrderIndependent` | src/main.rs:100-105 | permuting a tag list does not change its cleaned form |
| `Normalize.CleanUnit` | src/main.rs:112-114 | the unit stays present or absent, and a present unit becomes the trimmed raw unit |
| `Normalize.CleanSensor` | src/main.rs:99-116 | a cleaned sensor is in canonical form; its id and display name are the trimmed raw ones; it keeps its type; it has a unit exactly when the raw one had one, and that unit is the trimmed raw unit; its tags are the trimmed raw tags, as many as before, sorted |
| `Normalize.CleanSensorKeepsClean` | src/main.rs:107-115 | a sensor already in canonical form is left as it is |
| `Normalize.CleanSensorIdempotent` | src/main.rs:99-116 | cleaning a sensor twice is cleaning it once |
| `Normalize.CleanRawSensors` | src/main.rs:96-120 | the normalised list has as many sensors as the input, is sorted by id, is a permutation of the cleaned input sensors, and every sensor is in canonical form |
| `Normalize.CleanRawSensorsIdempotent` | src/main.rs:96-120 | normalising a normalised list changes nothing |
| `Normalize.CleanRawSensorsStable` | src/main.rs:118 | cleaned sensors that share an id keep their input order |
| `Normalize.CleanRawSensorsOrderIndependent` | src/main.rs:96-120 | when no two sensors share a trimmed id, the normalised list does not depend on the input order |
| `Normalize.CleanedIdsDistinct` | src/main.rs:108 | distinct trimmed ids make every cleaned id name a single cleaned sensor |
| `UniqueIds.SortedIds` | src/main.rs:89-91 | the collected and sorted ids are sorted, hold one id per sensor (the multiset of the sensors' ids), and so hold exactly the ids of the sensors |
| `UniqueIds.Dedup` | src/main.rs:92 | the in-place dedup of a sorted vector keeps a prefix that holds every value once and nothing else, still sorted |
| `UniqueIds.UniqueIdsCount` | src/main.rs:88-94 | the count is the number of distinct ids |
| `UniqueIds.IdSetSize` | src/main.rs:83-94 | there are never more distinct ids than sensors, and exactly as many if and only if no two sensors share an id |
| `UniqueIds.DistinctElems` | src/main.rs:92-93 | a list without repeats has as many elements as its set |
| `Units.Lines` | src/main.rs:175 | no line contains a newline |
| `Units.StripCr` | src/main.rs:175 | a line loses at most one final carriage return, and loses one exactly when it ends with one |
| `Units.LinesOfUnterminated` | src/main.rs:175 | a text whose last line has no newline after it gives back its lines, the earlier ones without the carriage return of a `\r\n` ending and the last one exactly as written |
| `Units.LinesOfTerminated` | src/main.rs:175 | a text made of newline-terminated lines gives back those lines, each without the carriage return of a `\r\n` ending |
| `Units.Units` | src/main.rs:173-182 | the loop builds exactly the set of comma-separated pieces of the trimmed data lines |
| `Units.LineUnitsEmptyIff` | src/main.rs:176-177 | a line adds nothing if and only if it is blank after trimming or starts with `--` |
| `Units.DataLineUnits` | src/main.rs:176-178 | a data line adds exactly its comma-separated pieces, each kept untrimmed |
| `Units.UnitSetHasNoSeparators` | src/main.rs:175-178 | no unit contains a comma or a newline |
| `Units.LineUnitsChars` | src/main.rs:176-178 | a unit is made of characters of the line it comes from |
| `Units.UnitsOfMember` | src/main.rs:174-181 | a symbol is in the catalogue of a list of lines if and only if some line of the list contributes it |
| `Units.UnitsOfSnoc` | src/main.rs:174-181 | each loop step adds exactly that line's units |
| `Units.UnitsOfAppend` | src/main.rs:174-181 | the catalogue of two blocks of lines is the union of their catalogues |
| `Units.IgnoredLineContributesNothing` | src/main.rs:177 | removing a blank or `--` line anywhere does not change the catalogue |
| `Validate.Message` | src/main.rs:51-84 | the printed line is `A sensor has an empty id` exactly for the empty-id finding and `Some sensor ids are not unique` exactly for the aggregate finding; every other line is about one sensor |
| `Validate.SensorLine` | src/main.rs:54-78 | a per-sensor line is exactly `Sensor id=` and the id followed by what is wrong, so it begins with `Se` and is never one of the two id-less lines |
| `Validate.InvalidTagMessageQuotesTag` | src/main.rs:61-64 | the invalid-tag line ends with the offending tag in single quotes |
| `Validate.MessageNamesSensor` | src/main.rs:54-78 | every message about a named sensor starts with `Sensor id=` followed by its id |
| `Validate.ValidateTags` | src/main.rs:59-66 | the tag loop reports exactly one invalid-tag finding per tag that is not a tag name, in tag order |
| `Validate.ValidateSensor` | src/main.rs:46-80 | one sensor's checks report, in order: empty id, empty display name, no tags, each invalid tag in tag order, then the unit rule |
| `Validate.ValidateSensors` | src/main.rs:45-85 | the findings are those of every sensor in list order, followed by the aggregate uniqueness finding when the distinct id count differs from the sensor count |
| `Validate.TagFindingsCount` | src/main.rs:59-66 | each occurrence of an invalid tag is reported once, a valid tag never, and the tag rule reports nothing else |
| `Validate.InvalidTagCount` | src/main.rs:59-66 | within one sensor's findings, an invalid tag is reported as often as it occurs in the tag list, and a valid tag never |
| `Validate.SensorFindingsCount` | src/main.rs:50-80 | how often a finding occurs among one sensor's findings is the sum over the rules |
| `Validate.InvalidUnitCount` | src/main.rs:67-75 | "invalid unit" is reported once exactly for a numeric sensor whose unit is not in the catalogue, otherwise never |
| `Validate.UnitButNotNumericCount` | src/main.rs:67-80 | "has a unit but is not numeric" is reported once exactly for a non-numeric sensor with a unit; a numeric sensor without a unit gets no unit finding |
| `Validate.NoMarkerTagsCount` | src/main.rs:56-58 | "no marker tags" is reported once exactly for a sensor without tags |
| `Validate.EmptyIdCount` | src/main.rs:50-52 | "empty id" is reported once exactly for a sensor with an empty id |
| `Validate.EmptyDisplayNameCount` | src/main.rs:53-55 | "empty display name" is reported once exactly for a sensor with an empty display name |
| `Validate.EmptyIdInSensor` | src/main.rs:50-52 | a sensor's findings include "empty id" if and only if its id is empty |
| `Validate.HasEmptyIdSnoc` | src/main.rs:45 | a list extended by one sensor has an empty id if and only if the list had one or the new sensor has one |
| `Validate.EmptyIdInAll` | src/main.rs:45-52 | the per-sensor findings include "empty id" if and only if some sensor has an empty id |
| `Validate.AllSensorFindingsAppend` | src/main.rs:45-81 | the findings of a concatenated list are those of the first part followed by those of the second: sensor after sensor, never interleaved |
| `Validate.NoAggregateInSensorFindings` | src/main.rs:45-81 | the per-sensor rules never report the aggregate finding |
| `Validate.IdsNotUniqueCount` | src/main.rs:83-85 | "Some sensor ids are not unique" is reported exactly once if two sensors share an id and never otherwise |
| `Validate.TagFindingsEmptyIff` | src/main.rs:59-66 | the tag rule reports nothing if and only if every tag is a legal tag name |
| `Validate.SensorFindingsEmptyIff` | src/main.rs:46-80 | one sensor gets no finding if and only if it has a non-empty id, display name and tag list, legal tags, and either no unit or a catalogue unit on a numeric sensor |
| `Validate.AllSensorFindingsEmptyIff` | src/main.rs:45-81 | the per-sensor pass reports nothing if and only if every sensor passes every rule |
| `Validate.FindingsEmptyIff` | src/main.rs:45-85 | the whole pass reports nothing if and only if the ids are distinct and every sensor passes every rule |
| `ParseSensors.ParseSensors` | src/main.rs:36-86 | the printed list is the normalised input, and the findings are those of that list against the catalogue read from the reference text |
| `ParseSensors.ParseSensorsOrderIndependent` | src/main.rs:41-85 | when no two sensors share a trimmed id, reordering the input file changes neither the printed list nor the findings |
| `ParseSensors.EmptyIdReported` | src/main.rs:41-52 | "empty id" is reported if and only if some raw sensor's id is empty or only whitespace |

## Left out

- `main`, `parse_args`, `print_help` and `Mode` (src/main.rs:25-34, 122-148) are left out. They handle command-line arguments and exit the process. So the model has no exit status: neither that the usage text exits with status 0 (src/main.rs:137-143) nor that findings leave the exit status unchanged.
- Reading the input file and the JSON decoding and pretty-printing (src/main.rs:38-43) are left out. They are I/O and a foreign codec, so sensors enter the model already decoded. `ParseSensors.ParseSensors` returns the normalised list and the findings as a pair. It does not capture that the code prints the JSON to standard output before any finding (src/main.rs:43), nor that nothing is written to a file.
- `println!` is left out. Findings are returned as a sequence of `Finding` values in print order, and `Message` gives each line's text.
- The contents of `units.txt` are not part of this model: it is embedded with `include_str!`. The catalogue is parsed from any reference text given as a parameter.
- The asset mode is left out: it only prints `TODO` (src/main.rs:31), so there is no asset validation to model.
- `Normalize.CleanRawSensorsOrderIndependent` and `ParseSensors.ParseSensorsOrderIndependent` require distinct trimmed ids. With repeated ids, the stable sort keeps input order among equal ids, which `Normalize.CleanRawSensorsStable` states, so the output does depend on input order.
- `Dedup` and `UniqueIdsCount` work on a fresh local array standing for the `Vec`. Capacity, reallocation and the dropped tail of `Vec::dedup` are not modelled.
