/**
 * `generate_file_names` and `solution`: each city list is sorted by `[date, time]`, the
 * position in it (plus one) is padded to the digit count of the list's length, and the new
 * name `<city><number>.<extension>` is written over the line the photo came from. The lines
 * are finally joined with newlines.
 */
module Renamer {
  import opened Options
  import opened Text
  import opened Padding
  import opened Grammar
  import opened Grouping
  import opened Ranking

  /**
   * `"#{city_name}#{append_zeros(number, width)}.#{extension}"`: the city, then exactly
   * `width` digits denoting `number`, then "." and the extension.
   */
  function NewName(city: string, number: nat, width: nat, extension: string): string
    requires NumDigits(number) <= width
  {
    city + AppendZeros(number, width) + "." + extension
  }

  lemma NewNameLayout(city: string, number: nat, width: nat, extension: string)
    requires NumDigits(number) <= width
    ensures var r := NewName(city, number, width, extension);
            && |r| == |city| + width + 1 + |extension|
            && r[..|city|] == city
            && AllDigits(r[|city|..|city| + width]) && DigitsValue(r[|city|..|city| + width]) == number
            && r[|city| + width] == '.' && r[|city| + width + 1..] == extension
  {
    var r := NewName(city, number, width, extension);
    assert r[|city|..|city| + width] == AppendZeros(number, width);
  }

  /** The number of photos in the city of line `i`. */
  function CityCount(ps: seq<Photo>, i: nat): nat
    requires i < |ps|
  {
    |CityList(ps, ps[i].city)|
  }

  /**
   * The name line `i` receives: its own city and extension around its rank, padded to the
   * digit count of its city's photo count.
   */
  function RenamedAt(ps: seq<Photo>, i: nat): string
    requires i < |ps|
  {
    RankBounds(ps, i);
    NumDigitsMonotone(Rank(ps, i), CityCount(ps, i));
    NewName(ps[i].city, Rank(ps, i), NumDigits(CityCount(ps, i)), ps[i].extension)
  }

  /**
   * The new name of line `i` is built from its own city and extension around its rank, padded
   * to the digit count of its city's photo count; the rank fits in that many digits.
   */
  lemma RenamedAtIsNewName(ps: seq<Photo>, i: nat)
    requires i < |ps|
    ensures NumDigits(Rank(ps, i)) <= NumDigits(CityCount(ps, i))
    ensures RenamedAt(ps, i) == NewName(ps[i].city, Rank(ps, i), NumDigits(CityCount(ps, i)), ps[i].extension)
  {
    RankBounds(ps, i);
    NumDigitsMonotone(Rank(ps, i), CityCount(ps, i));
  }

  /** The whole output array: line `i` renamed. */
  function Renamed(ps: seq<Photo>): seq<string> {
    seq(|ps|, i requires 0 <= i < |ps| => RenamedAt(ps, i))
  }

  /** `names` holds, at every line number, the new name of that line. */
  predicate NamesTable(ps: seq<Photo>, names: seq<string>) {
    |names| == |ps| && forall i {:trigger RenamedAt(ps, i)} :: 0 <= i < |ps| ==> names[i] == RenamedAt(ps, i)
  }

  /** What `solution(s)` returns: `None` where the Ruby program raises. */
  function RenamePhotos(s: string): Option<string> {
    match ParseAll(Split(s))
    case None => None
    case Some(ps) => Some(Join(Renamed(ps)))
  }

  /** `solution` fails exactly when some line of the input does not match the line expression. */
  lemma RenamePhotosFails(s: string)
    ensures RenamePhotos(s).None? <==> exists i :: 0 <= i < |Split(s)| && Parse(Split(s)[i]).None?
  {
    if RenamePhotos(s).None? {
      var i :| 0 <= i < |Split(s)| && !Parse(Split(s)[i]).Some?;
    }
  }

  /** A new name is one line of output: it is not empty and holds no newline. */
  lemma NewNameIsLine(city: string, number: nat, width: nat, extension: string)
    requires NumDigits(number) <= width && city != [] && NoNewline(city) && NoNewline(extension)
    ensures NewName(city, number, width, extension) != []
    ensures NoNewline(NewName(city, number, width, extension))
  {
    var digits := AppendZeros(number, width);
    assert NoNewline(digits);
  }

  /** The city and extension of a well-formed record are non-empty and free of newlines. */
  lemma WellFormedLineFields(p: Photo)
    requires WellFormed(p)
    ensures p.city != [] && NoNewline(p.city) && NoNewline(p.extension)
  {
  }

  /** Every new name of well-formed records is one line of output. */
  lemma RenamedLines(ps: seq<Photo>)
    requires forall i :: 0 <= i < |ps| ==> WellFormed(ps[i])
    ensures forall i :: 0 <= i < |ps| ==> Renamed(ps)[i] != [] && NoNewline(Renamed(ps)[i])
  {
    forall i | 0 <= i < |ps| ensures Renamed(ps)[i] != [] && NoNewline(Renamed(ps)[i]) {
      RenamedAtIsNewName(ps, i);
      WellFormedLineFields(ps[i]);
      NewNameIsLine(ps[i].city, Rank(ps, i), NumDigits(CityCount(ps, i)), ps[i].extension);
    }
  }

  /**
   * The output of `solution`, split into lines again, is exactly the new names: as many lines
   * as the input has, line `i` holding the name built from input line `i`.
   */
  lemma RenamePhotosLines(s: string)
    requires RenamePhotos(s).Some?
    ensures |Split(RenamePhotos(s).value)| == |Split(s)|
    ensures Split(RenamePhotos(s).value) == Renamed(ParseAll(Split(s)).value)
  {
    var lines := Split(s);
    var ps := ParseAll(lines).value;
    forall i | 0 <= i < |ps| ensures WellFormed(ps[i]) {
      ParseSound(lines[i]);
    }
    RenamedLines(ps);
    SplitJoin(Renamed(ps));
  }

  /** The line numbers carried by the entries of `s`. */
  ghost function Indices(s: seq<Entry>): set<nat> {
    set j | 0 <= j < |s| :: s[j].index
  }

  /**
   * A sorted copy of a city's list holds exactly the photos of that city: each entry carries
   * its own line number and record, and every line of the city occurs.
   */
  lemma SortedCovers(ps: seq<Photo>, city: string, s: seq<Entry>)
    requires multiset(s) == multiset(CityList(ps, city))
    ensures forall j :: 0 <= j < |s| ==> s[j].index < |ps| && ps[s[j].index] == s[j].photo && s[j].photo.city == city
    ensures forall i :: 0 <= i < |ps| ==> (i in Indices(s) <==> ps[i].city == city)
  {
    CityListFacts(ps, city);
    forall j | 0 <= j < |s| ensures s[j].index < |ps| && ps[s[j].index] == s[j].photo && s[j].photo.city == city {
      assert s[j] in multiset(CityList(ps, city));
    }
    forall i | 0 <= i < |ps| && ps[i].city == city ensures i in Indices(s) {
      assert Entry(i, ps[i]) in multiset(s);
      var j :| 0 <= j < |s| && s[j] == Entry(i, ps[i]);
    }
  }

  /**
   * The name built for position `k` of a sorted copy of a city's list, numbered `k + 1` and
   * padded to the digit count of the list's length, is the new name of that entry's line.
   */
  lemma NameAtPosition(ps: seq<Photo>, city: string, s: seq<Entry>, k: nat)
    requires DistinctStamps(ps)
    requires multiset(s) == multiset(CityList(ps, city)) && Sorted(s) && k < |s|
    ensures s[k].index < |ps| && NumDigits(k + 1) <= NumDigits(|s|)
    ensures NewName(s[k].photo.city, k + 1, NumDigits(|s|), s[k].photo.extension) == RenamedAt(ps, s[k].index)
  {
    RankInSorted(ps, city, s, k);
    assert |multiset(s)| == |multiset(CityList(ps, city))|;
    NumDigitsMonotone(k + 1, |s|);
  }

  /** Entry `e`, numbered `number` and padded to `width` digits, gets the name `names` holds for its line. */
  predicate NameFor(e: Entry, number: nat, width: nat, names: seq<string>) {
    e.index < |names| && NumDigits(number) <= width &&
    NewName(e.photo.city, number, width, e.photo.extension) == names[e.index]
  }

  /** Every position of a sorted copy of a city's list names its line as the names table does. */
  lemma SortedNames(ps: seq<Photo>, names: seq<string>, city: string, s: seq<Entry>)
    requires DistinctStamps(ps) && NamesTable(ps, names)
    requires multiset(s) == multiset(CityList(ps, city)) && Sorted(s)
    ensures forall k :: 0 <= k < |s| ==> NameFor(s[k], k + 1, NumDigits(|s|), names)
  {
    forall k | 0 <= k < |s| ensures NameFor(s[k], k + 1, NumDigits(|s|), names) {
      NameAtPosition(ps, city, s, k);
    }
  }

  /**
   * The loop over one sorted city list in `generate_file_names`: the entry at position `k`,
   * numbered `k + 1` and padded to `width` digits, is written over the line it came from.
   * Exactly the lines the list carries change, each to the name `names` holds for it.
   */
  method WriteNames(sorted: array<Entry>, width: nat, arr: array<string>, ghost names: seq<string>)
    requires arr.Length == |names|
    requires forall k :: 0 <= k < sorted.Length ==> NameFor(sorted[k], k + 1, width, names)
    modifies arr
    ensures forall i :: 0 <= i < arr.Length ==> arr[i] == if i in Indices(sorted[..]) then names[i] else old(arr[i])
  {
    ghost var written: set<nat> := {};
    var k := 0;
    while k < sorted.Length
      invariant k <= sorted.Length
      invariant written == set j | 0 <= j < k :: sorted[j].index
      invariant forall i :: 0 <= i < arr.Length ==> arr[i] == if i in written then names[i] else old(arr[i])
    {
      var fileDetails := sorted[k];
      var fileName := NewName(fileDetails.photo.city, k + 1, width, fileDetails.photo.extension);
      arr[fileDetails.index] := fileName;
      written := written + {fileDetails.index};
      k := k + 1;
    }
    assert written == Indices(sorted[..]);
  }

  /**
   * One turn of the loop over the cities in `generate_file_names`: sort the city's list by
   * `[date, time]`, take the digit count of its length as the width, and rename the lines of
   * the list. `names` holds the new name of every line; exactly the lines of the city change,
   * each to its new name.
   */
  method RenameCity(city: string, list: seq<Entry>, arr: array<string>, ghost ps: seq<Photo>, ghost names: seq<string>)
    requires list == CityList(ps, city) && arr.Length == |ps| && DistinctStamps(ps) && NamesTable(ps, names)
    modifies arr
    ensures forall i :: 0 <= i < |ps| ==> arr[i] == if ps[i].city == city then names[i] else old(arr[i])
  {
    var sorted := new Entry[|list|](k requires 0 <= k < |list| => list[k]);
    assert sorted[..] == list;
    SortByStamp(sorted);
    SortedCovers(ps, city, sorted[..]);
    SortedNames(ps, names, city, sorted[..]);
    var targetNumDigits := NumDigits(sorted.Length);
    WriteNames(sorted, targetNumDigits, arr, names);
  }

  /**
   * `generate_file_names(files_hash, arr)`: every city, in whatever order the keys come,
   * renames the lines of its photos; as the cities own disjoint sets of lines, the order does
   * not matter and every line ends up holding its new name.
   */
  method GenerateFileNames(filesHash: map<string, seq<Entry>>, arr: array<string>, ghost ps: seq<Photo>,
                           ghost names: seq<string>)
    requires filesHash == Group(ps) && arr.Length == |ps| && DistinctStamps(ps)
    requires NamesTable(ps, names)
    modifies arr
    ensures arr[..] == names
  {
    var cities := filesHash.Keys;
    while cities != {}
      invariant cities <= filesHash.Keys
      invariant forall i :: 0 <= i < |ps| ==> arr[i] == if ps[i].city in cities then old(arr[i]) else names[i]
      decreases |cities|
    {
      var city :| city in cities;
      GroupLookup(ps, city);
      RenameCity(city, filesHash[city], arr, ps, names);
      cities := cities - {city};
    }
    forall i | 0 <= i < |ps| ensures arr[i] == names[i] {
      assert ps[i].city in Cities(ps);
    }
  }

  /**
   * `solution(s)`: split the text into lines, group them by city, overwrite every line with
   * its new name and join the lines again.
   */
  method Solution(s: string) returns (r: Option<string>)
    requires ParseAll(Split(s)).Some? ==> DistinctStamps(ParseAll(Split(s)).value)
    ensures r == RenamePhotos(s)
  {
    var lines := Split(s);
    var arr := new string[|lines|](i requires 0 <= i < |lines| => lines[i]);
    var filesHash := CreateFilesHash(arr[..]);
    assert arr[..] == lines;
    if filesHash.None? {
      return None;
    }
    ghost var ps := ParseAll(lines).value;
    GenerateFileNames(filesHash.value, arr, ps, Renamed(ps));
    return Some(Join(arr[..]));
  }
}
