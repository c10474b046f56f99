/**
 * `create_files_hash`: every line is parsed, and the record of line `i` is appended, tagged
 * with `i`, to the list kept under its city name. A line the expression does not match makes
 * `match` return `nil`, and asking `nil` for its captures aborts the whole program; here that
 * outcome is `None`.
 */
module Grouping {
  import opened Options
  import opened Grammar

  /** One element of a city list: `[idx, photo_name, extension, city_name, date, time]`. */
  datatype Entry = Entry(index: nat, photo: Photo)

  /** Every line parsed, or `None` as soon as one of them does not match. */
  function ParseAll(lines: seq<string>): (r: Option<seq<Photo>>)
    ensures r.Some? <==> forall i :: 0 <= i < |lines| ==> Parse(lines[i]).Some?
    ensures r.Some? ==> |r.value| == |lines|
    ensures r.Some? ==> forall i :: 0 <= i < |lines| ==> Parse(lines[i]) == Some(r.value[i])
  {
    if |lines| == 0 then Some([])
    else
      match ParseAll(lines[..|lines| - 1])
      case None => None
      case Some(ps) =>
        match Parse(lines[|lines| - 1])
        case None => None
        case Some(p) => Some(ps + [p])
  }

  /** One more line that parses extends the parsed prefix by its record. */
  lemma ParseAllSnoc(lines: seq<string>, i: nat, ps: seq<Photo>, p: Photo)
    requires i < |lines| && ParseAll(lines[..i]) == Some(ps) && Parse(lines[i]) == Some(p)
    ensures ParseAll(lines[..i + 1]) == Some(ps + [p])
  {
    assert lines[..i + 1][..i] == lines[..i];
  }

  /** One line that does not parse makes the whole input fail. */
  lemma ParseAllStops(lines: seq<string>, i: nat)
    requires i < |lines| && Parse(lines[i]).None?
    ensures ParseAll(lines).None?
  {
  }

  /**
   * The list a city ends up with: the photos of that city, each tagged with its line number,
   * in line order.
   */
  function CityList(ps: seq<Photo>, city: string): seq<Entry> {
    if |ps| == 0 then []
    else
      var n := |ps| - 1;
      var prefix := CityList(ps[..n], city);
      if ps[n].city == city then prefix + [Entry(n, ps[n])] else prefix
  }

  /**
   * A city's list holds exactly the photos of that city, each with its own line number and
   * record, with the line numbers increasing.
   */
  lemma {:induction false} CityListFacts(ps: seq<Photo>, city: string)
    ensures forall k :: 0 <= k < |CityList(ps, city)| ==>
              CityList(ps, city)[k].index < |ps| && ps[CityList(ps, city)[k].index] == CityList(ps, city)[k].photo &&
              CityList(ps, city)[k].photo.city == city
    ensures forall i :: 0 <= i < |ps| && ps[i].city == city ==> Entry(i, ps[i]) in CityList(ps, city)
    ensures forall j, k :: 0 <= j < k < |CityList(ps, city)| ==> CityList(ps, city)[j].index < CityList(ps, city)[k].index
  {
    if |ps| > 0 {
      var n := |ps| - 1;
      CityListFacts(ps[..n], city);
      assert forall i :: 0 <= i < n ==> ps[..n][i] == ps[i];
    }
  }

  /** The city names that occur in `ps`: the keys of the hash. */
  function Cities(ps: seq<Photo>): set<string> {
    set i | 0 <= i < |ps| :: ps[i].city
  }

  /** The hash built from the parsed lines: each city name mapped to its list. */
  function Group(ps: seq<Photo>): map<string, seq<Entry>> {
    map city | city in Cities(ps) :: CityList(ps, city)
  }

  /** The list under a key of the hash is that city's list. */
  lemma GroupLookup(ps: seq<Photo>, city: string)
    requires city in Group(ps)
    ensures Group(ps)[city] == CityList(ps, city)
  {
  }

  lemma CitiesSnoc(ps: seq<Photo>, p: Photo)
    ensures Cities(ps + [p]) == Cities(ps) + {p.city}
  {
    var qs := ps + [p];
    assert qs[|ps|].city == p.city;
    forall city | city in Cities(qs) ensures city in Cities(ps) + {p.city} {
      var i :| 0 <= i < |qs| && qs[i].city == city;
      if i < |ps| {
        assert ps[i].city == city;
      }
    }
    forall city | city in Cities(ps) ensures city in Cities(qs) {
      var i :| 0 <= i < |ps| && ps[i].city == city;
      assert qs[i].city == city;
    }
  }

  lemma CityListSnoc(ps: seq<Photo>, p: Photo, city: string)
    ensures CityList(ps + [p], city) ==
      CityList(ps, city) + (if p.city == city then [Entry(|ps|, p)] else [])
  {
    assert (ps + [p])[..|ps|] == ps;
  }

  /** A city that occurs nowhere has the empty list. */
  lemma {:induction false} CityListAbsent(ps: seq<Photo>, city: string)
    requires city !in Cities(ps)
    ensures CityList(ps, city) == []
  {
    if |ps| > 0 {
      var n := |ps| - 1;
      assert ps[n].city in Cities(ps);
      forall i | 0 <= i < n ensures ps[..n][i].city != city {
        assert ps[i].city in Cities(ps);
      }
      CityListAbsent(ps[..n], city);
    }
  }

  /** Appending one photo to the input appends one entry to one list, creating it if new. */
  lemma GroupSnoc(ps: seq<Photo>, p: Photo)
    ensures Group(ps + [p]) ==
      Group(ps)[p.city := (if p.city in Group(ps) then Group(ps)[p.city] else []) + [Entry(|ps|, p)]]
  {
    var old_ := Group(ps);
    var lhs := Group(ps + [p]);
    var rhs := old_[p.city := (if p.city in old_ then old_[p.city] else []) + [Entry(|ps|, p)]];
    CitiesSnoc(ps, p);
    assert lhs.Keys == rhs.Keys;
    forall city | city in lhs.Keys ensures lhs[city] == rhs[city] {
      CityListSnoc(ps, p, city);
      if city == p.city && city !in old_ {
        CityListAbsent(ps, city);
      }
    }
  }

  /**
   * Each line index lies in exactly one list, the one under its own city name, and there it
   * carries that line's record.
   */
  lemma GroupPlacement(ps: seq<Photo>, i: nat)
    requires i < |ps|
    ensures ps[i].city in Group(ps) && Entry(i, ps[i]) in Group(ps)[ps[i].city]
    ensures forall city, k ::
              (city in Group(ps) && 0 <= k < |Group(ps)[city]| && Group(ps)[city][k].index == i) ==>
              city == ps[i].city && Group(ps)[city][k] == Entry(i, ps[i])
  {
    assert ps[i].city in Cities(ps);
    forall city | city in Group(ps) {
      CityListFacts(ps, city);
    }
  }

  /** Every list in the hash is non-empty, and its indices increase strictly. */
  lemma GroupListsIncreasing(ps: seq<Photo>, city: string)
    requires city in Group(ps)
    ensures |Group(ps)[city]| >= 1
    ensures forall j, k :: 0 <= j < k < |Group(ps)[city]| ==> Group(ps)[city][j].index < Group(ps)[city][k].index
  {
    var i :| 0 <= i < |ps| && ps[i].city == city;
    CityListFacts(ps, city);
    assert Entry(i, ps[i]) in Group(ps)[city];
  }

  /**
   * `create_files_hash(arr)`: one pass over the lines, appending each line's entry to the
   * list of its city.
   */
  method CreateFilesHash(lines: seq<string>) returns (r: Option<map<string, seq<Entry>>>)
    ensures r.None? <==> ParseAll(lines).None?
    ensures r.Some? ==> r.value == Group(ParseAll(lines).value)
  {
    var filesHash: map<string, seq<Entry>> := map[];
    ghost var ps: seq<Photo> := [];
    var i := 0;
    while i < |lines|
      invariant i <= |lines|
      invariant ParseAll(lines[..i]) == Some(ps)
      invariant filesHash == Group(ps)
    {
      var fileDetails := Parse(lines[i]);
      if fileDetails.None? {
        ParseAllStops(lines, i);
        return None;
      }
      var p := fileDetails.value;
      var list := if p.city in filesHash then filesHash[p.city] else [];
      filesHash := filesHash[p.city := list + [Entry(i, p)]];
      GroupSnoc(ps, p);
      ParseAllSnoc(lines, i, ps, p);
      ps := ps + [p];
      i := i + 1;
    }
    assert lines[..i] == lines;
    return Some(filesHash);
  }
}
