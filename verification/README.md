# Photo renamer, modelled in Dafny

`solution.rb` renames a batch of photos. It reads newline-separated records of the form
`<photo_name>.<extension>, <City>, yyyy-mm-dd hh:mm:ss` and returns one new file name per line,
in the same order as the input. The name for line `i` is:

- its city,
- then the photo's chronological number within that city, zero-padded to the digit count of
  the city's photo count,
- then `.` and its extension.

The program has four stages, and the model keeps that structure; one more module works
through concrete inputs:

| stage | Ruby | Dafny module | file |
|---|---|---|---|
| line grammar `REGEX_FOR_FILES` and `String#match` | `solution.rb:3`, `:46` | `Grammar` | `grammar.dfy` |
| `create_files_hash`: city → list of `[idx, fields…]` | `solution.rb:41-55` | `Grouping` | `grouping.dfy` |
| `generate_file_names`: `sort_by!`, width, write into `arr` | `solution.rb:57-77` | `Ranking`, `Renamer` | `ranking.dfy`, `renamer.dfy` |
| `append_zeros`, `Integer#digits.size`, `Integer#to_s` | `solution.rb:79-84`, `:67` | `Padding` | `padding.dfy` |
| worked inputs: one line, two photos of one city, two cities, ten-photo padding, a bad line | `solution.rb:28-84` | `Scenarios` | `scenarios.dfy` |

`Text` (`text.dfy`) holds what Ruby provides:

- the character classes;
- the greedy runs of `\w+` and `[a-z]+`;
- `String#<=>`;
- `String#split(/\n/)` and `Array#join("\n")`.

`Options` holds the `Option` result type. A `None` result stands for the exception Ruby raises
when `match` returns `nil` and `named_captures` is called on it.

How the model is built:

- **Matcher.** `Grammar.MatchAt` is the expression matched at one start position, and
  `Grammar.Search` tries positions left to right, as `String#match` does. Neither `\w+` nor
  `[a-z]+` can give back characters, because the next item of the expression is never in their
  class, and the three extensions exclude one another. So the match is deterministic, and the
  captures are the five named fields.
- **Rank.** `Ranking.Rank` defines the number a photo receives independently of any sorting:
  one more than the number of photos of its city taken strictly earlier.
- **Imperative code.** `CreateFilesHash`, `SortByStamp`, `RenameCity`, `WriteNames` and
  `GenerateFileNames` are methods over maps and arrays. Each is proved against those
  definitions.
- **Whole program.** `Renamer.Solution` returns exactly `RenamePhotos(s)`, the functional
  statement of the whole program.

Where the problem statement and the code differ, the model follows the code:

- A name is `\w+`, so digits and `_` are allowed, not only letters.
- A city is `[A-Z][a-z]+`.
- The separators are `\s`, which is any of space, tab, CR, LF, FF and VT, not only a space.
- The expression is not anchored, so text around the match is ignored.
- `split` drops every trailing empty line, not only one.

## Model

| member | source | states |
|---|---|---|
| Text.RunLength | solution.rb:3 | the greedy run of `\w+` / `[a-z]+` stays inside the line and stops at the first character outside the class |
| Text.RunLengthClass | solution.rb:3 | every character the greedy run consumes is in the class |
| Text.RunLengthIs | solution.rb:3 | a stretch of class members followed by a non-member (or the end) is exactly the run |
| Text.Substring | solution.rb:46 | a captured group has the length of its span and, position by position, the characters of the line there |
| Text.SubstringIsSlice | solution.rb:46 | the captured group is the slice of the line between its bounds |
| Text.LexLessIrreflexive | solution.rb:62 | `String#<=>` never puts a string before itself |
| Text.LexLessTransitive | solution.rb:62 | `String#<=>` ordering is transitive |
| Text.LexLessTotal | solution.rb:62 | two different strings are ordered one way or the other |
| Text.DropTrailingEmpty | solution.rb:30 | `split` keeps a prefix of the segments, drops only empty ones, and ends on a non-empty line |
| Text.JoinSegments | solution.rb:30 | joining all newline-separated segments with "\n" gives back the text |
| Text.SplitJoin | solution.rb:38 | splitting the join of newline-free lines, the last non-empty, gives back exactly those lines |
| Text.SplitLosesOnlyTrailingNewlines | solution.rb:30 | the split lines joined again are the text minus trailing newlines only |
| Text.SplitLines | solution.rb:30 | no split line contains a newline and the last one is not empty |
| Padding.NumDigitsBounds | solution.rb:67 | `n.digits.size` is the `d` with 10^(d-1) <= n < 10^d |
| Padding.NumDigitsMonotone | solution.rb:96-98 | a number no larger than the count never has more digits than the count |
| Padding.DecimalString | solution.rb:81 | `n.to_s` has `n.digits.size` characters, all decimal digits |
| Padding.DecimalStringValue | solution.rb:81 | `n.to_s` denotes `n` and has no leading zero |
| Padding.LeadingZerosValue | solution.rb:83 | leading '0' characters do not change the number a digit string denotes |
| Padding.AppendZeros | solution.rb:79-84 | the padded number has exactly `width` characters, all digits, denoting `n`: `width - digits(n)` zeros then `n.to_s` |
| Grammar.FitsAtSubstring | solution.rb:3 | the date/time shape checked in place is the shape of the captured text |
| Grammar.ExtensionAt | solution.rb:3 | the alternation `jpg\|png\|jpeg` only ever yields one of the three, and it stands at the position |
| Grammar.ExtensionAtFinds | solution.rb:3 | an extension that stands at the position is the one the alternation yields |
| Grammar.LayoutPieces | solution.rb:3 | text laid out as name "." ext ", " city ", " date " " time has each piece at its offset |
| Grammar.MatchAtSound | solution.rb:3 | a match at `s` has well-formed fields laid out from `s` with whitespace separators |
| Grammar.MatchAtComplete | solution.rb:3 | well-formed fields laid out from `s` with whitespace separators are matched at `s`, exactly those fields |
| Grammar.MatchNeedsRoom | solution.rb:3 | a match needs at least 30 characters from its start on |
| Grammar.SearchNone | solution.rb:46 | the search from `s` fails exactly when no start position from `s` on matches |
| Grammar.SearchFinds | solution.rb:46 | a successful search returns the match at a start position before which nothing matched |
| Grammar.ParseLeftmost | solution.rb:46 | `line.match` gives `p` exactly when `p` is the match at the leftmost matching position |
| Grammar.ParseFails | solution.rb:46 | `line.match` is `nil` exactly when no position of the line matches |
| Grammar.ParseSound | solution.rb:46 | the captures of a successful match are well formed and laid out in the line |
| Grammar.ParseFormat | solution.rb:111 | a line in the documented format, followed by anything, parses to exactly its record |
| Grammar.ShortLineFails | solution.rb:3 | a line shorter than 30 characters never matches |
| Grouping.ParseAll | solution.rb:43-49 | all lines parse exactly when every line does; record `i` is the parse of line `i` |
| Grouping.ParseAllStops | solution.rb:46-49 | one line that does not match makes the whole input fail |
| Grouping.ParseAllSnoc | solution.rb:43-52 | one more matching line extends the parsed prefix by its record |
| Grouping.CityListFacts | solution.rb:49-52 | a city's list holds exactly that city's lines, each with its own index and record, indices increasing |
| Grouping.GroupSnoc | solution.rb:49-52 | handling one more line appends one entry to its city's list, creating the list on first use |
| Grouping.GroupPlacement | solution.rb:42-54 | every line index is in exactly one list, the one under its own city, carrying its own record |
| Grouping.GroupListsIncreasing | solution.rb:42-54 | every list in the hash is non-empty and its indices increase strictly |
| Grouping.CreateFilesHash | solution.rb:41-55 | the hash is built exactly when every line matches, and then maps each city to its list |
| Ranking.StampLessTransitive | solution.rb:60-63 | `[date, time]` comparison is transitive |
| Ranking.StampLessTotal | solution.rb:60-63 | two different `[date, time]` keys are ordered one way or the other |
| Ranking.SortByStamp | solution.rb:60-63 | after `sort_by!` the list is non-decreasing in `[date, time]` and a permutation of the original |
| Ranking.CountEarlierPermutation | solution.rb:60-63 | sorting does not change how many entries are earlier than a photo |
| Ranking.SortedPosition | solution.rb:69 | in a sorted list without shared stamps, position `k` has exactly `k` earlier entries |
| Ranking.PermutationDistinct | solution.rb:114 | distinct stamps survive sorting |
| Ranking.RankBounds | solution.rb:69-73 | in a city with `k` photos every number is in 1..k |
| Ranking.RankChronological | solution.rb:60-73 | a photo taken strictly earlier than another of its city gets a strictly smaller number |
| Ranking.RankInjective | solution.rb:69-73 | two photos of one city never get the same number |
| Ranking.RankOnto | solution.rb:69-73 | every number 1..k is given to some photo of a `k`-photo city |
| Ranking.RankInSorted | solution.rb:60-73 | after sorting, the entry at position `k` is a photo of the city whose number is `k + 1` |
| Renamer.NewNameLayout | solution.rb:73 | a new name is the city, then `width` digits denoting the number, then "." and the extension |
| Renamer.RenamedAtIsNewName | solution.rb:67-73 | line `i` is renamed with its own city and extension around its number, padded to the digit count of its city's photo count, which the number fits |
| Renamer.NewNameIsLine | solution.rb:73 | a new name is non-empty and holds no newline |
| Renamer.RenamedLines | solution.rb:73 | every new name of a parsed input is one output line |
| Renamer.RenamePhotosFails | solution.rb:46-49 | `solution` fails exactly when some input line does not match |
| Renamer.RenamePhotosLines | solution.rb:28-39 | the output has as many lines as the input, line `i` holding the new name of input line `i` |
| Renamer.SortedCovers | solution.rb:60-75 | the sorted copy of a city list holds exactly the lines of that city with their own records |
| Renamer.SortedNames | solution.rb:69-75 | the name built at each position of the sorted list is the new name of that entry's line |
| Renamer.WriteNames | solution.rb:69-75 | exactly the lines the sorted list carries are overwritten, each with its new name |
| Renamer.RenameCity | solution.rb:59-75 | exactly the lines of the city change, each to its new name; the others keep their text |
| Renamer.GenerateFileNames | solution.rb:57-77 | whatever order the cities come in, afterwards every slot of `arr` holds its line's new name |
| Renamer.Solution | solution.rb:28-39 | `solution` returns exactly `RenamePhotos(s)`: `None` on a bad line, otherwise the new names joined by "\n" |
| Scenarios.PaddingScenario | solution.rb:79-84 | in a group of ten photos the numbers 1, 3 and 10 are written "01", "03" and "10" |
| Scenarios.NameOfOne | solution.rb:67-74 | a photo alone in the input is renamed `<city>1.<extension>` |
| Scenarios.NamesOfTwoCities | solution.rb:41-75 | two photos of different cities are each number 1 of their own city |
| Scenarios.NamesOfTwoReversed | solution.rb:60-75 | two photos of one city given latest first are renamed with 2 and 1, in input order |
| Scenarios.KrakowScenario | solution.rb:57-77 | `a.png, Krakow, 2015-01-01 12:00:00` then `b.jpg, Krakow, 2015-01-01 11:00:00` become "Krakow2.png" and "Krakow1.jpg" |
| Scenarios.TwoCitiesScenario | solution.rb:41-77 | a Warsaw and a Krakow photo with the same timestamp become "Warsaw1.jpg" and "Krakow1.png" |
| Scenarios.FormatIsLine | solution.rb:111 | a well-formed record written in the documented format is one non-empty line |
| Scenarios.OneLineInput | solution.rb:28-39 | a one-line input that matches yields exactly the single name of its record |
| Scenarios.SinglePhotoScenario | solution.rb:28-39 | the input `photo.jpg, Warsaw, 2013-09-05 14:08:15` yields "Warsaw1.jpg" |
| Scenarios.MissingTimeScenario | solution.rb:46-49 | the input `photo.jpg, Warsaw, 2013-09-05`, which lacks the time, yields no result |

## Left out

- Renamer.Solution: requires that no two photos of one city share a date and time. This is the
  input promise at `solution.rb:114`. With such ties `sort_by!` is not stable, and Ruby fixes
  no order among equal keys, so the model states nothing about them.
- Ranking.SortByStamp: stands in for `sort_by!` with an insertion sort. Any sort yields the same
  order once keys are distinct, which is what the contract states. Ruby's own sorting
  algorithm is not modelled.
- Padding.AppendZeros: requires `digits(n) <= width`. Ruby's `'0' * count` raises for a
  negative count; every call in the program meets the requirement, and the model proves this.
- Renamer.GenerateFileNames: the order of `files_hash.keys` is Ruby's insertion order. The model
  takes the cities in an arbitrary order. The cities own disjoint sets of lines, so the result
  is the same for every order.
- Renamer.RenameCity: sorts a copy of the city's list. Ruby sorts the list stored in the hash.
  Nothing reads the hash afterwards, so the stored lists are not updated in the model.
- Exceptions are not modelled as control flow: the `nil.named_captures` failure is the result
  `None`.
- Character classes are ASCII: `\w`, `[A-Z]`, `[a-z]`, `\d`, and `\s` as space, tab, CR, LF, FF
  and VT. Strings are sequences of characters, compared by code point. Encodings and Unicode
  properties are not modelled.
- The complexity analysis and pseudo-code comments (`solution.rb:6-26`, `solution.rb:86-136`)
  describe no behaviour. The model uses them only for the padding rule and the input promises.
- The input bounds at `solution.rb:109-112` are not required: at most 100 lines, years
  2000–2020, names of 1 to 20 letters. The model holds for inputs of any size. (The
  distinct-timestamp promise at `solution.rb:114` is required; see Renamer.Solution above.)
