/**
 * The line grammar `REGEX_FOR_FILES` and Ruby's `String#match` with it:
 *
 *   <name:\w+> "." <extension:jpg|png|jpeg> "," \s <city:[A-Z][a-z]+> "," \s
 *   <date:\d{4}-\d{2}-\d{2}> \s <time:\d{2}:\d{2}:\d{2}>
 *
 * The expression is not anchored, so `String#match` reports the match that starts leftmost.
 * At a fixed start position the expression can match in at most one way: `\w+` has to stop
 * right before the ".", which is not a word character, so only the longest run of word
 * characters can be followed by it; likewise `[a-z]+` must take the whole lower-case run
 * before ","; and no two of the three extensions can both be followed by ",". `MatchAt`
 * therefore decides the match at one start position directly, and `Search` tries the
 * positions from left to right.
 */
module Grammar {
  import opened Options
  import opened Text

  /** The five named captures: photo_name, extension, city_name, date, time. */
  datatype Photo = Photo(name: string, extension: string, city: string, date: string, time: string)

  /** Shapes of the date and time fields: 'd' stands for any decimal digit. */
  const DateShape: string := "dddd-dd-dd"
  const TimeShape: string := "dd:dd:dd"

  /** The shortest line any match can occupy: one-letter name, "jpg", two-letter city. */
  const MinMatchLength: nat := 30

  predicate FitsShape(s: string, shape: string) {
    |s| == |shape| &&
    forall k :: 0 <= k < |s| ==> if shape[k] == 'd' then IsDigit(s[k]) else s[k] == shape[k]
  }

  /** `shape` laid over `line` from position `at`, character by character. */
  predicate FitsAt(line: string, at: nat, shape: string) {
    at + |shape| <= |line| &&
    forall k :: 0 <= k < |shape| ==> if shape[k] == 'd' then IsDigit(line[at + k]) else line[at + k] == shape[k]
  }

  /** Checking a shape in place is checking it on the slice it covers. */
  lemma FitsAtSubstring(line: string, at: nat, shape: string)
    requires at + |shape| <= |line|
    ensures FitsAt(line, at, shape) <==> FitsShape(Substring(line, at, at + |shape|), shape)
  {
  }

  predicate IsExtension(x: string) {
    x == "jpg" || x == "png" || x == "jpeg"
  }

  /** `\w+`: one or more word characters. */
  predicate IsName(x: string) {
    |x| >= 1 && forall k :: 0 <= k < |x| ==> IsWordChar(x[k])
  }

  /** `[A-Z][a-z]+`: a capital letter followed by one or more lower-case letters. */
  predicate IsCity(x: string) {
    |x| >= 2 && IsUpper(x[0]) && forall k :: 1 <= k < |x| ==> IsLower(x[k])
  }

  /** The captured fields satisfy their sub-expressions. */
  predicate WellFormed(p: Photo) {
    && IsName(p.name)
    && IsExtension(p.extension)
    && IsCity(p.city)
    && FitsShape(p.date, DateShape)
    && FitsShape(p.time, TimeShape)
  }

  /** The text a match covers, with the characters that stand at the three `\s` positions. */
  function Layout(p: Photo, sep1: char, sep2: char, sep3: char): string {
    p.name + "." + p.extension + "," + [sep1] + p.city + "," + [sep2] + p.date + [sep3] + p.time
  }

  /** The documented line format: `<name>.<extension>, <city>, <date> <time>`. */
  function Format(p: Photo): string {
    Layout(p, ' ', ' ', ' ')
  }

  /** The alternation `jpg|png|jpeg`, tried in that order at position `at`. */
  function ExtensionAt(line: string, at: nat): (r: Option<string>)
    ensures r.Some? ==> IsExtension(r.value) && HasAt(line, at, r.value)
  {
    if HasAt(line, at, "jpg") then Some("jpg")
    else if HasAt(line, at, "png") then Some("png")
    else if HasAt(line, at, "jpeg") then Some("jpeg")
    else None
  }

  /** The match of `REGEX_FOR_FILES` that starts exactly at position `s`, if there is one. */
  function MatchAt(line: string, s: nat): Option<Photo>
    requires s <= |line|
  {
    var n := RunLength(line, s, Word);
    if n == 0 || !HasAt(line, s + n, ".") then None
    else match ExtensionAt(line, s + n + 1)
      case None => None
      case Some(ext) => MatchCity(line, s + n + 1 + |ext|, Substring(line, s, s + n), ext)
  }

  /** The rest of a match from the "," after the extension: `,\s[A-Z][a-z]+` and what follows. */
  function MatchCity(line: string, c: nat, name: string, ext: string): Option<Photo>
    requires c <= |line|
  {
    if !(c + 3 <= |line| && line[c] == ',' && IsSpace(line[c + 1]) && IsUpper(line[c + 2])) then None
    else
      var m := RunLength(line, c + 3, Lower);
      if m == 0 then None else MatchStamp(line, c + 3 + m, name, ext, Substring(line, c + 2, c + 3 + m))
  }

  /** The rest of a match from the "," after the city: `,\s<date>\s<time>`. */
  function MatchStamp(line: string, d: nat, name: string, ext: string, city: string): Option<Photo>
    requires d <= |line|
  {
    if d + 21 <= |line| && line[d] == ',' && IsSpace(line[d + 1])
       && FitsAt(line, d + 2, DateShape) && IsSpace(line[d + 12])
       && FitsAt(line, d + 13, TimeShape)
    then Some(Photo(name, ext, city, Substring(line, d + 2, d + 12), Substring(line, d + 13, d + 21)))
    else None
  }

  /** The leftmost match at or after position `s`. */
  function Search(line: string, s: nat): Option<Photo>
    requires s <= |line|
    decreases |line| - s
  {
    if s == |line| then None
    else match MatchAt(line, s)
      case Some(p) => Some(p)
      case None => Search(line, s + 1)
  }

  /** `line.match(REGEX_FOR_FILES)`, reduced to its named captures; `None` is Ruby's `nil`. */
  function Parse(line: string): Option<Photo> {
    Search(line, 0)
  }

  // ---------------------------------------------------------------------------
  // Text held at a position
  // ---------------------------------------------------------------------------

  lemma HasAtConcat(line: string, at: nat, x: string, y: string)
    ensures HasAt(line, at, x + y) <==> HasAt(line, at, x) && HasAt(line, at + |x|, y)
  {
    if HasAt(line, at, x + y) {
      forall k | 0 <= k < |x| ensures line[at + k] == x[k] {
        assert (x + y)[k] == x[k];
      }
      forall k | 0 <= k < |y| ensures line[at + |x| + k] == y[k] {
        assert (x + y)[|x| + k] == y[k];
      }
    }
    if HasAt(line, at, x) && HasAt(line, at + |x|, y) {
      forall k | 0 <= k < |x + y| ensures line[at + k] == (x + y)[k] {
        if k >= |x| {
          assert line[at + |x| + (k - |x|)] == y[k - |x|];
        }
      }
    }
  }

  lemma HasAtChar(line: string, at: nat, ch: char)
    ensures HasAt(line, at, [ch]) <==> at < |line| && line[at] == ch
  {
    if HasAt(line, at, [ch]) {
      assert [ch][0] == ch;
    }
  }

  // ---------------------------------------------------------------------------
  // The layout of a record, piece by piece
  // ---------------------------------------------------------------------------

  /** A line holding a record's layout at position `s` holds each of its pieces at their offsets. */
  lemma {:induction false} LayoutPieces(line: string, s: nat, p: Photo, sep1: char, sep2: char, sep3: char,
                                        dot: nat, c: nat, d: nat)
    requires dot == s + |p.name| && c == dot + 1 + |p.extension| && d == c + 2 + |p.city|
    requires HasAt(line, s, Layout(p, sep1, sep2, sep3))
    ensures d + 3 + |p.date| + |p.time| <= |line|
    ensures HasAt(line, s, p.name) && line[dot] == '.' && HasAt(line, dot + 1, p.extension)
    ensures line[c] == ',' && line[c + 1] == sep1 && HasAt(line, c + 2, p.city)
    ensures line[d] == ',' && line[d + 1] == sep2 && HasAt(line, d + 2, p.date)
    ensures line[d + 2 + |p.date|] == sep3 && HasAt(line, d + 3 + |p.date|, p.time)
  {
    var x1 := p.name + ".";
    var x2 := x1 + p.extension;
    var x3 := x2 + ",";
    var x4 := x3 + [sep1];
    var x5 := x4 + p.city;
    var x6 := x5 + ",";
    var x7 := x6 + [sep2];
    var x8 := x7 + p.date;
    var x9 := x8 + [sep3];
    assert Layout(p, sep1, sep2, sep3) == x9 + p.time;
    HasAtConcat(line, s, x9, p.time);
    HasAtConcat(line, s, x8, [sep3]);
    HasAtConcat(line, s, x7, p.date);
    HasAtConcat(line, s, x6, [sep2]);
    HasAtConcat(line, s, x5, ",");
    HasAtConcat(line, s, x4, p.city);
    HasAtConcat(line, s, x3, [sep1]);
    HasAtConcat(line, s, x2, ",");
    HasAtConcat(line, s, x1, p.extension);
    HasAtConcat(line, s, p.name, ".");
    HasAtChar(line, dot, '.');
    HasAtChar(line, c, ',');
    HasAtChar(line, c + 1, sep1);
    HasAtChar(line, d, ',');
    HasAtChar(line, d + 1, sep2);
    HasAtChar(line, d + 2 + |p.date|, sep3);
  }

  /** Text held piece after piece is held as a whole. */
  lemma HasAtFive(line: string, at: nat, a: string, b: string, c: string, d: string, e: string)
    requires HasAt(line, at, a) && HasAt(line, at + |a|, b) && HasAt(line, at + |a| + |b|, c)
    requires HasAt(line, at + |a| + |b| + |c|, d) && HasAt(line, at + |a| + |b| + |c| + |d|, e)
    ensures HasAt(line, at, a + b + c + d + e)
  {
    HasAtConcat(line, at, a, b);
    HasAtConcat(line, at, a + b, c);
    HasAtConcat(line, at, a + b + c, d);
    HasAtConcat(line, at, a + b + c + d, e);
  }

  /** Conversely, the pieces at their offsets make up the layout. */
  lemma PiecesLayout(line: string, s: nat, p: Photo, sep1: char, sep2: char, sep3: char,
                     dot: nat, c: nat, d: nat)
    requires dot == s + |p.name| && c == dot + 1 + |p.extension| && d == c + 2 + |p.city|
    requires d + 3 + |p.date| + |p.time| <= |line|
    requires HasAt(line, s, p.name) && line[dot] == '.' && HasAt(line, dot + 1, p.extension)
    requires line[c] == ',' && line[c + 1] == sep1 && HasAt(line, c + 2, p.city)
    requires line[d] == ',' && line[d + 1] == sep2 && HasAt(line, d + 2, p.date)
    requires line[d + 2 + |p.date|] == sep3 && HasAt(line, d + 3 + |p.date|, p.time)
    ensures HasAt(line, s, Layout(p, sep1, sep2, sep3))
  {
    HasAtChar(line, dot, '.');
    HasAtChar(line, c, ',');
    HasAtChar(line, c + 1, sep1);
    HasAtChar(line, d, ',');
    HasAtChar(line, d + 1, sep2);
    HasAtChar(line, d + 2 + |p.date|, sep3);
    var front := p.name + "." + p.extension + "," + [sep1];
    var back := p.city + "," + [sep2] + p.date + [sep3];
    HasAtFive(line, s, p.name, ".", p.extension, ",", [sep1]);
    HasAtFive(line, c + 2, p.city, ",", [sep2], p.date, [sep3]);
    HasAtConcat(line, s, front, back);
    HasAtConcat(line, s, front + back, p.time);
    LayoutThirds(p, sep1, sep2, sep3);
  }

  lemma LayoutThirds(p: Photo, sep1: char, sep2: char, sep3: char)
    ensures Layout(p, sep1, sep2, sep3) ==
      (p.name + "." + p.extension + "," + [sep1]) + (p.city + "," + [sep2] + p.date + [sep3]) + p.time
  {
  }

  // ---------------------------------------------------------------------------
  // The matcher, stage by stage
  // ---------------------------------------------------------------------------

  /** The three extensions exclude one another: whichever one the text holds is the one found. */
  lemma ExtensionAtFinds(line: string, at: nat, x: string)
    requires IsExtension(x) && HasAt(line, at, x)
    ensures ExtensionAt(line, at) == Some(x)
  {
    assert x[0] == line[at] && x[1] == line[at + 1] && x[2] == line[at + 2];
    if x != "jpg" {
      assert !HasAt(line, at, "jpg") by {
        assert "jpg"[0] == 'j' && "jpg"[2] == 'g';
        assert x[0] != 'j' || x[2] != 'g';
      }
      if x != "png" {
        assert !HasAt(line, at, "png") by {
          assert "png"[0] == 'p' && x[0] == 'j';
        }
      }
    }
  }

  lemma MatchStampLaidOut(line: string, d: nat, name: string, ext: string, city: string,
                          date: string, time: string)
    requires FitsShape(date, DateShape) && FitsShape(time, TimeShape)
    requires d + 21 <= |line| && line[d] == ',' && IsSpace(line[d + 1]) && IsSpace(line[d + 12])
    requires HasAt(line, d + 2, date) && HasAt(line, d + 13, time)
    ensures MatchStamp(line, d, name, ext, city) == Some(Photo(name, ext, city, date, time))
  {
    HasAtSubstring(line, d + 2, date);
    HasAtSubstring(line, d + 13, time);
    FitsAtSubstring(line, d + 2, DateShape);
    FitsAtSubstring(line, d + 13, TimeShape);
  }

  lemma MatchStampFields(line: string, d: nat, name: string, ext: string, city: string)
    requires d <= |line| && MatchStamp(line, d, name, ext, city).Some?
    ensures var p := MatchStamp(line, d, name, ext, city).value;
      && p.name == name && p.extension == ext && p.city == city
      && FitsShape(p.date, DateShape) && FitsShape(p.time, TimeShape)
      && d + 21 <= |line| && line[d] == ',' && IsSpace(line[d + 1]) && IsSpace(line[d + 12])
      && HasAt(line, d + 2, p.date) && HasAt(line, d + 13, p.time)
  {
    HasAtSubstring(line, d + 2, Substring(line, d + 2, d + 12));
    HasAtSubstring(line, d + 13, Substring(line, d + 13, d + 21));
    FitsAtSubstring(line, d + 2, DateShape);
    FitsAtSubstring(line, d + 13, TimeShape);
  }

  lemma MatchCityLaidOut(line: string, c: nat, name: string, ext: string, city: string)
    requires IsCity(city)
    requires c + 2 + |city| < |line| && line[c] == ',' && IsSpace(line[c + 1])
    requires HasAt(line, c + 2, city) && line[c + 2 + |city|] == ','
    ensures MatchCity(line, c, name, ext) == MatchStamp(line, c + 2 + |city|, name, ext, city)
  {
    var d := c + 2 + |city|;
    RunLengthOfCopy(line, c + 2, Lower, city, 1);
    HasAtSubstring(line, c + 2, city);
  }

  lemma MatchCityFields(line: string, c: nat, name: string, ext: string)
    requires c <= |line| && MatchCity(line, c, name, ext).Some?
    ensures var city := MatchCity(line, c, name, ext).value.city;
      && IsCity(city)
      && c + 2 + |city| < |line| && line[c] == ',' && IsSpace(line[c + 1])
      && HasAt(line, c + 2, city) && line[c + 2 + |city|] == ','
      && MatchCity(line, c, name, ext) == MatchStamp(line, c + 2 + |city|, name, ext, city)
  {
    var m := RunLength(line, c + 3, Lower);
    RunLengthClass(line, c + 3, Lower);
    var d := c + 3 + m;
    MatchStampFields(line, d, name, ext, Substring(line, c + 2, d));
    HasAtSubstring(line, c + 2, Substring(line, c + 2, d));
  }

  /** The later stages pass the name and extension through unchanged. */
  lemma MatchCityKeeps(line: string, c: nat, name: string, ext: string)
    requires c <= |line| && MatchCity(line, c, name, ext).Some?
    ensures MatchCity(line, c, name, ext).value.name == name
    ensures MatchCity(line, c, name, ext).value.extension == ext
  {
  }

  /** One step of the match at `s`: the name run, the ".", the extension, then the rest. */
  lemma MatchAtStep(line: string, s: nat, n: nat, ext: string)
    requires s + n <= |line| && n == RunLength(line, s, Word) && n > 0 && HasAt(line, s + n, ".")
    requires ExtensionAt(line, s + n + 1) == Some(ext)
    ensures s + n + 1 + |ext| <= |line|
    ensures MatchAt(line, s) == MatchCity(line, s + n + 1 + |ext|, Substring(line, s, s + n), ext)
  {
  }

  lemma MatchAtLaidOut(line: string, s: nat, name: string, ext: string)
    requires IsName(name) && IsExtension(ext)
    requires s + |name| < |line| && HasAt(line, s, name) && line[s + |name|] == '.'
    requires HasAt(line, s + |name| + 1, ext)
    ensures s + |name| + 1 + |ext| <= |line|
    ensures MatchAt(line, s) == MatchCity(line, s + |name| + 1 + |ext|, name, ext)
  {
    var dot := s + |name|;
    RunLengthOfCopy(line, s, Word, name, 0);
    HasAtChar(line, dot, '.');
    ExtensionAtFinds(line, dot + 1, ext);
    HasAtSubstring(line, s, name);
    MatchAtStep(line, s, |name|, ext);
  }

  lemma MatchAtFields(line: string, s: nat)
    requires s <= |line| && MatchAt(line, s).Some?
    ensures var p := MatchAt(line, s).value;
      && IsName(p.name)
      && IsExtension(p.extension)
      && s + |p.name| < |line| && HasAt(line, s, p.name) && line[s + |p.name|] == '.'
      && HasAt(line, s + |p.name| + 1, p.extension)
      && s + |p.name| + 1 + |p.extension| <= |line|
      && MatchAt(line, s) == MatchCity(line, s + |p.name| + 1 + |p.extension|, p.name, p.extension)
  {
    var n := RunLength(line, s, Word);
    RunLengthClass(line, s, Word);
    var ext := ExtensionAt(line, s + n + 1).value;
    MatchCityKeeps(line, s + n + 1 + |ext|, Substring(line, s, s + n), ext);
    HasAtSubstring(line, s, Substring(line, s, s + n));
    HasAtChar(line, s + n, '.');
  }

  // ---------------------------------------------------------------------------
  // Properties of the matcher
  // ---------------------------------------------------------------------------

  /** Fields that fit their sub-expressions, found piece by piece in the line, form a laid-out record. */
  lemma PiecesSound(line: string, s: nat, p: Photo, dot: nat, c: nat, d: nat)
    requires dot == s + |p.name| && c == dot + 1 + |p.extension| && d == c + 2 + |p.city|
    requires IsName(p.name) && IsExtension(p.extension)
    requires IsCity(p.city)
    requires FitsShape(p.date, DateShape) && FitsShape(p.time, TimeShape)
    requires d + 21 <= |line|
    requires HasAt(line, s, p.name) && line[dot] == '.' && HasAt(line, dot + 1, p.extension)
    requires line[c] == ',' && IsSpace(line[c + 1]) && HasAt(line, c + 2, p.city)
    requires line[d] == ',' && IsSpace(line[d + 1]) && HasAt(line, d + 2, p.date)
    requires IsSpace(line[d + 12]) && HasAt(line, d + 13, p.time)
    ensures WellFormed(p)
    ensures exists sep1, sep2, sep3 :: IsSpace(sep1) && IsSpace(sep2) && IsSpace(sep3)
                                      && HasAt(line, s, Layout(p, sep1, sep2, sep3))
  {
    assert |p.date| == 10;
    PiecesLayout(line, s, p, line[c + 1], line[d + 1], line[d + 12], dot, c, d);
  }

  /** Whatever the matcher captures is well formed, and the line holds it laid out at `s`. */
  lemma MatchAtSound(line: string, s: nat)
    requires s <= |line| && MatchAt(line, s).Some?
    ensures var p := MatchAt(line, s).value;
      && WellFormed(p)
      && exists sep1, sep2, sep3 :: IsSpace(sep1) && IsSpace(sep2) && IsSpace(sep3)
                                    && HasAt(line, s, Layout(p, sep1, sep2, sep3))
  {
    var p := MatchAt(line, s).value;
    var dot := s + |p.name|;
    var c := dot + 1 + |p.extension|;
    var d := c + 2 + |p.city|;
    MatchAtFields(line, s);
    MatchCityFields(line, c, p.name, p.extension);
    MatchStampFields(line, d, p.name, p.extension, p.city);
    PiecesSound(line, s, p, dot, c, d);
  }

  lemma MatchCityComplete(line: string, c: nat, d: nat, p: Photo)
    requires WellFormed(p) && d == c + 2 + |p.city| && d + 21 <= |line|
    requires line[c] == ',' && IsSpace(line[c + 1]) && HasAt(line, c + 2, p.city)
    requires line[d] == ',' && IsSpace(line[d + 1]) && HasAt(line, d + 2, p.date)
    requires IsSpace(line[d + 12]) && HasAt(line, d + 13, p.time)
    ensures MatchCity(line, c, p.name, p.extension) == Some(p)
  {
    MatchCityLaidOut(line, c, p.name, p.extension, p.city);
    MatchStampLaidOut(line, d, p.name, p.extension, p.city, p.date, p.time);
  }

  /** A well-formed record laid out at `s` is matched there, whatever text surrounds it. */
  lemma MatchAtComplete(line: string, s: nat, p: Photo, sep1: char, sep2: char, sep3: char)
    requires WellFormed(p) && IsSpace(sep1) && IsSpace(sep2) && IsSpace(sep3)
    requires HasAt(line, s, Layout(p, sep1, sep2, sep3))
    ensures s <= |line| && MatchAt(line, s) == Some(p)
  {
    var dot := s + |p.name|;
    var c := dot + 1 + |p.extension|;
    var d := c + 2 + |p.city|;
    LayoutPieces(line, s, p, sep1, sep2, sep3, dot, c, d);
    MatchAtPieces(line, s, p, dot, c, d);
  }

  /** A well-formed record found piece by piece from `s` on is matched there. */
  lemma MatchAtPieces(line: string, s: nat, p: Photo, dot: nat, c: nat, d: nat)
    requires WellFormed(p) && dot == s + |p.name| && c == dot + 1 + |p.extension| && d == c + 2 + |p.city|
    requires d + 21 <= |line|
    requires HasAt(line, s, p.name) && line[dot] == '.' && HasAt(line, dot + 1, p.extension)
    requires line[c] == ',' && IsSpace(line[c + 1]) && HasAt(line, c + 2, p.city)
    requires line[d] == ',' && IsSpace(line[d + 1]) && HasAt(line, d + 2, p.date)
    requires IsSpace(line[d + 12]) && HasAt(line, d + 13, p.time)
    ensures MatchAt(line, s) == Some(p)
  {
    MatchAtLaidOut(line, s, p.name, p.extension);
    MatchCityComplete(line, c, d, p);
  }

  /** A match needs at least `MinMatchLength` characters from its start position on. */
  lemma MatchNeedsRoom(line: string, s: nat)
    requires s <= |line| && MatchAt(line, s).Some?
    ensures s + MinMatchLength <= |line|
  {
    var p := MatchAt(line, s).value;
    MatchAtSound(line, s);
    var sep1, sep2, sep3 :| IsSpace(sep1) && IsSpace(sep2) && IsSpace(sep3)
                            && HasAt(line, s, Layout(p, sep1, sep2, sep3));
    assert |Layout(p, sep1, sep2, sep3)| >= MinMatchLength;
  }

  // ---------------------------------------------------------------------------
  // The leftmost search
  // ---------------------------------------------------------------------------

  lemma {:induction false} SearchNone(line: string, s: nat)
    requires s <= |line|
    ensures Search(line, s).None? <==> forall k :: s <= k <= |line| ==> MatchAt(line, k).None?
    decreases |line| - s
  {
    if s < |line| {
      SearchNone(line, s + 1);
    }
  }

  lemma {:induction false} SearchReaches(line: string, s: nat, k: nat)
    requires s <= k <= |line|
    requires forall j :: s <= j < k ==> MatchAt(line, j).None?
    ensures Search(line, s) == Search(line, k)
    decreases k - s
  {
    if s < k {
      SearchReaches(line, s + 1, k);
    }
  }

  lemma {:induction false} SearchFinds(line: string, s: nat)
    requires s <= |line| && Search(line, s).Some?
    ensures exists k :: s <= k < |line| && MatchAt(line, k) == Search(line, s)
                        && forall j :: s <= j < k ==> MatchAt(line, j).None?
    decreases |line| - s
  {
    if MatchAt(line, s).None? {
      SearchFinds(line, s + 1);
    }
  }

  /**
   * `String#match` reports the leftmost match: `Parse` yields `p` exactly when some position
   * matches with captures `p` and no earlier position matches at all.
   */
  lemma ParseLeftmost(line: string, p: Photo)
    ensures Parse(line) == Some(p) <==>
      exists k :: 0 <= k <= |line| && MatchAt(line, k) == Some(p)
                  && forall j :: 0 <= j < k ==> MatchAt(line, j).None?
  {
    if Parse(line) == Some(p) {
      SearchFinds(line, 0);
    }
    if exists k :: 0 <= k <= |line| && MatchAt(line, k) == Some(p)
                   && forall j :: 0 <= j < k ==> MatchAt(line, j).None? {
      var k :| 0 <= k <= |line| && MatchAt(line, k) == Some(p)
               && forall j :: 0 <= j < k ==> MatchAt(line, j).None?;
      SearchReaches(line, 0, k);
    }
  }

  /** `match` returns `nil` exactly when the expression matches at no position of the line. */
  lemma ParseFails(line: string)
    ensures Parse(line).None? <==> forall k :: 0 <= k <= |line| ==> MatchAt(line, k).None?
  {
    SearchNone(line, 0);
  }

  /** Whatever `Parse` captures is well formed and laid out somewhere in the line. */
  lemma ParseSound(line: string)
    requires Parse(line).Some?
    ensures WellFormed(Parse(line).value)
    ensures exists s, sep1, sep2, sep3 :: IsSpace(sep1) && IsSpace(sep2) && IsSpace(sep3)
                                          && HasAt(line, s, Layout(Parse(line).value, sep1, sep2, sep3))
  {
    SearchFinds(line, 0);
    var k :| 0 <= k < |line| && MatchAt(line, k) == Parse(line);
    MatchAtSound(line, k);
  }

  /** A line that starts with a record in the documented format parses to that record. */
  lemma ParseFormat(p: Photo, rest: string)
    requires WellFormed(p)
    ensures Parse(Format(p) + rest) == Some(p)
  {
    var line := Format(p) + rest;
    assert HasAt(line, 0, Format(p)) by {
      forall k | 0 <= k < |Format(p)| ensures line[0 + k] == Format(p)[k] {
      }
    }
    MatchAtComplete(line, 0, p, ' ', ' ', ' ');
  }

  /** A line too short to hold any record makes `match` return `nil`. */
  lemma ShortLineFails(line: string)
    requires |line| < MinMatchLength
    ensures Parse(line).None?
  {
    forall k | 0 <= k <= |line| ensures MatchAt(line, k).None? {
      if MatchAt(line, k).Some? {
        MatchNeedsRoom(line, k);
      }
    }
    ParseFails(line);
  }
}
