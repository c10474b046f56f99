/**
 * Worked scenarios of the renamer, proved on concrete records and lines: they pin the
 * numbering, the padding width and the failure case to the values the program produces.
 */
module Scenarios {
  import opened Options
  import opened Text
  import opened Padding
  import opened Grammar
  import opened Grouping
  import opened Ranking
  import opened Renamer

  /** A group of ten photos is numbered with two digits: "01" up to "10". */
  lemma PaddingScenario()
    ensures NumDigits(10) == 2
    ensures AppendZeros(1, NumDigits(10)) == "01"
    ensures AppendZeros(3, NumDigits(10)) == "03"
    ensures AppendZeros(10, NumDigits(10)) == "10"
  {
    assert DecimalString(10) == DecimalString(1) + [DigitChar(0)];
  }

  /** In a city of fewer than ten photos a line's number is one digit, unpadded. */
  lemma OneDigitName(ps: seq<Photo>, i: nat, rank: nat, count: nat)
    requires i < |ps| && Rank(ps, i) == rank && CityCount(ps, i) == count && count < 10
    ensures rank < 10 && RenamedAt(ps, i) == ps[i].city + [DigitChar(rank)] + "." + ps[i].extension
  {
    RenamedAtIsNewName(ps, i);
    RankBounds(ps, i);
    assert AppendZeros(rank, 1) == Zeros(0) + DecimalString(rank);
  }

  /** The list of a city for two photos, built in line order. */
  lemma CityListOfTwo(a: Photo, b: Photo, city: string)
    ensures CityList([a, b], city) ==
      (if a.city == city then [Entry(0, a)] else []) + (if b.city == city then [Entry(1, b)] else [])
  {
    CityListSnoc([], a, city);
    assert [] + [a] == [a];
    CityListSnoc([a], b, city);
    assert [a] + [b] == [a, b];
  }

  /** Both lines of a two-line input renamed. */
  lemma RenamedOfTwo(ps: seq<Photo>)
    requires |ps| == 2
    ensures Renamed(ps) == [RenamedAt(ps, 0), RenamedAt(ps, 1)]
  {
    RenamedEntries(ps);
    PairOf(Renamed(ps), RenamedAt(ps, 0), RenamedAt(ps, 1));
  }

  lemma RenamedEntries(ps: seq<Photo>)
    requires |ps| == 2
    ensures |Renamed(ps)| == 2 && Renamed(ps)[0] == RenamedAt(ps, 0) && Renamed(ps)[1] == RenamedAt(ps, 1)
  {
  }

  lemma PairOf(r: seq<string>, x: string, y: string)
    requires |r| == 2 && r[0] == x && r[1] == y
    ensures r == [x, y]
  {
  }

  /** A photo alone in its list has no earlier photo. */
  lemma AloneFirst(k: nat, p: Photo)
    ensures CountEarlier([Entry(k, p)], p) == 0
  {
    StampLessIrreflexive(p);
  }

  /** The one-digit number `n`, as the name carries it. */
  lemma DigitName(city: string, n: nat, extension: string)
    requires n < 10
    ensures city + [DigitChar(n)] + "." + extension == city + [DigitChar(n), '.'] + extension
  {
  }

  /** A lone photo is number 1 of its city. */
  lemma NameOfOne(a: Photo)
    ensures Renamed([a]) == [a.city + "1." + a.extension]
  {
    var ps := [a];
    CityListSnoc([], a, a.city);
    assert [] + [a] == ps;
    AloneFirst(0, a);
    OneDigitName(ps, 0, 1, 1);
    DigitName(a.city, 1, a.extension);
  }

  /** Two photos of different cities are each alone in their city's list. */
  lemma RanksOfTwoCities(a: Photo, b: Photo)
    requires a.city != b.city
    ensures Rank([a, b], 0) == 1 && CityCount([a, b], 0) == 1
    ensures Rank([a, b], 1) == 1 && CityCount([a, b], 1) == 1
  {
    CityListOfTwo(a, b, a.city);
    CityListOfTwo(a, b, b.city);
    AloneFirst(0, a);
    AloneFirst(1, b);
  }

  /** Two photos of different cities are each number 1. */
  lemma NamesOfTwoCities(a: Photo, b: Photo)
    requires a.city != b.city
    ensures Renamed([a, b]) == [a.city + "1." + a.extension, b.city + "1." + b.extension]
  {
    var ps := [a, b];
    RenamedOfTwo(ps);
    RanksOfTwoCities(a, b);
    OneDigitName(ps, 0, 1, 1);
    OneDigitName(ps, 1, 1, 1);
    DigitName(a.city, 1, a.extension);
    DigitName(b.city, 1, b.extension);
  }

  /** Two photos of one city, the second taken first: numbers 2 and 1, in input order. */
  lemma NamesOfTwoReversed(a: Photo, b: Photo)
    requires a.city == b.city && StampLess(b, a)
    ensures Renamed([a, b]) == [a.city + "2." + a.extension, b.city + "1." + b.extension]
  {
    var ps := [a, b];
    var l := [Entry(0, a), Entry(1, b)];
    RenamedOfTwo(ps);
    CityListOfTwo(a, b, a.city);
    StampLessIrreflexive(a);
    StampLessAsymmetric(b, a);
    AloneFirst(1, a);
    AloneFirst(1, b);
    assert l[1..] == [Entry(1, b)];
    assert CountEarlier(l, a) == 1;
    assert CountEarlier(l, b) == 0;
    OneDigitName(ps, 0, 2, 2);
    OneDigitName(ps, 1, 1, 2);
    DigitName(a.city, 2, a.extension);
    DigitName(b.city, 1, b.extension);
  }

  /** An input of one line that matches is renamed to the single name of its record. */
  lemma OneLineInput(line: string, p: Photo)
    requires line != [] && NoNewline(line) && Parse(line) == Some(p)
    ensures RenamePhotos(line) == Some(p.city + "1." + p.extension)
  {
    OneLine(line);
    NameOfOne(p);
    ParseAllSnoc([line], 0, [], p);
    assert [line][..1] == [line] && [] + [p] == [p];
    ParseSound(line);
    FirstNameIsLine(p);
    OneLine(p.city + "1." + p.extension);
  }

  /** The name of a lone photo is one line of output. */
  lemma FirstNameIsLine(p: Photo)
    requires WellFormed(p)
    ensures p.city + "1." + p.extension != [] && NoNewline(p.city + "1." + p.extension)
  {
    WellFormedLineFields(p);
    var name := p.city + "1." + p.extension;
    forall k | |p.city| + 2 <= k < |name| ensures name[k] != '\n' {
      assert name[k] == p.extension[k - |p.city| - 2];
    }
  }

  /** A single line without newline splits into itself, and the join of one line is that line. */
  lemma OneLine(s: string)
    requires s != [] && NoNewline(s)
    ensures Split(s) == [s] && Join([s]) == s
  {
    SplitJoin([s]);
  }

  // ---------------------------------------------------------------------------
  // Two photos of one city, given in reverse chronological order
  // ---------------------------------------------------------------------------

  const KrakowNoon := Photo("a", "png", "Krakow", "2015-01-01", "12:00:00")
  const KrakowEleven := Photo("b", "jpg", "Krakow", "2015-01-01", "11:00:00")

  lemma KrakowOrder()
    ensures StampLess(KrakowEleven, KrakowNoon)
  {
    var noon, eleven := KrakowNoon.time, KrakowEleven.time;
    assert noon[0] == eleven[0] && noon[1] == '2' && eleven[1] == '1';
    assert LexLess(eleven[1..], noon[1..]);
  }

  lemma KrakowNames()
    ensures KrakowNoon.city + "2." + KrakowNoon.extension == "Krakow2.png"
    ensures KrakowEleven.city + "1." + KrakowEleven.extension == "Krakow1.jpg"
  {
  }

  /**
   * The later photo of the input is the earlier one taken, so the output, in input order, is
   * "Krakow2.png" then "Krakow1.jpg".
   */
  lemma KrakowScenario()
    ensures Renamed([KrakowNoon, KrakowEleven]) == ["Krakow2.png", "Krakow1.jpg"]
  {
    KrakowOrder();
    NamesOfTwoReversed(KrakowNoon, KrakowEleven);
    KrakowNames();
  }

  // ---------------------------------------------------------------------------
  // Two cities with one photo each, taken at the same moment
  // ---------------------------------------------------------------------------

  const WarsawPhoto := Photo("photo", "jpg", "Warsaw", "2013-09-05", "14:08:15")
  const KrakowPhoto := Photo("b", "png", "Krakow", "2013-09-05", "14:08:15")

  lemma WarsawName()
    ensures WarsawPhoto.city + "1." + WarsawPhoto.extension == "Warsaw1.jpg"
  {
  }

  lemma TwoCitiesNames()
    ensures WarsawPhoto.city != KrakowPhoto.city
    ensures KrakowPhoto.city + "1." + KrakowPhoto.extension == "Krakow1.png"
  {
    assert WarsawPhoto.city[0] != KrakowPhoto.city[0];
  }

  /** Each city numbers its own photos: the same timestamp in another city does not count. */
  lemma TwoCitiesScenario()
    ensures Renamed([WarsawPhoto, KrakowPhoto]) == ["Warsaw1.jpg", "Krakow1.png"]
  {
    WarsawName();
    TwoCitiesNames();
    NamesOfTwoCities(WarsawPhoto, KrakowPhoto);
  }

  // ---------------------------------------------------------------------------
  // Whole inputs of one line
  // ---------------------------------------------------------------------------

  /** The line `photo.jpg, Warsaw, 2013-09-05 14:08:15`. */
  const WarsawLine := Format(WarsawPhoto)
  const TimelessLine := "photo.jpg, Warsaw, 2013-09-05"

  lemma NoNewlineConcat(a: string, b: string)
    requires NoNewline(a) && NoNewline(b)
    ensures NoNewline(a + b)
  {
    forall k | |a| <= k < |a + b| ensures (a + b)[k] != '\n' {
      assert (a + b)[k] == b[k - |a|];
    }
  }

  lemma ShapeNoNewline(s: string, shape: string)
    requires FitsShape(s, shape) && NoNewline(shape)
    ensures NoNewline(s)
  {
  }

  /** A record in the documented format is one line of input. */
  lemma FormatIsLine(p: Photo)
    requires WellFormed(p)
    ensures Format(p) != [] && NoNewline(Format(p))
  {
    ShapeNoNewline(p.date, DateShape);
    ShapeNoNewline(p.time, TimeShape);
    var a := p.name + "." + p.extension + "," + " ";
    NoNewlineConcat(p.name, ".");
    NoNewlineConcat(p.name + ".", p.extension);
    NoNewlineConcat(p.name + "." + p.extension, ",");
    NoNewlineConcat(p.name + "." + p.extension + ",", " ");
    var b := a + p.city + "," + " ";
    NoNewlineConcat(a, p.city);
    NoNewlineConcat(a + p.city, ",");
    NoNewlineConcat(a + p.city + ",", " ");
    NoNewlineConcat(b, p.date);
    NoNewlineConcat(b + p.date, " ");
    NoNewlineConcat(b + p.date + " ", p.time);
    assert Format(p) == b + p.date + " " + p.time;
  }

  lemma WarsawWellFormed()
    ensures WellFormed(WarsawPhoto)
  {
    assert IsName(WarsawPhoto.name) && IsCity(WarsawPhoto.city);
    assert FitsShape(WarsawPhoto.date, DateShape);
    assert FitsShape(WarsawPhoto.time, TimeShape);
  }

  /** The line in the documented format parses to its record. */
  lemma WarsawLineParses()
    ensures WarsawLine != [] && NoNewline(WarsawLine)
    ensures Parse(WarsawLine) == Some(WarsawPhoto)
  {
    WarsawWellFormed();
    ParseFormat(WarsawPhoto, []);
    assert WarsawLine + [] == WarsawLine;
    FormatIsLine(WarsawPhoto);
  }

  /** A single photo in a single city becomes `<City>1.<ext>`. */
  lemma SinglePhotoScenario()
    ensures RenamePhotos(WarsawLine) == Some("Warsaw1.jpg")
  {
    WarsawLineParses();
    OneLineInput(WarsawLine, WarsawPhoto);
    WarsawName();
  }

  /** A line without its time component fails the whole input: no names are produced. */
  lemma MissingTimeScenario()
    ensures RenamePhotos(TimelessLine).None?
  {
    OneLine(TimelessLine);
    ShortLineFails(TimelessLine);
    RenamePhotosFails(TimelessLine);
  }
}
