/** `HospitalDirectory`: hospitals grouped by city in a `TreeMap` ordered by
    `String.CASE_INSENSITIVE_ORDER`, kept here as the sequence of its entries in
    key order, with the city lookup and its fallbacks. */
module Hospitals {
  import opened Results
  import opened Text

  datatype Hospital = Hospital(name: string, city: string, extra: string)

  /** One map entry: the key (a trimmed city name) and its hospitals in the
      order they were added. */
  datatype CityEntry = CityEntry(city: string, hospitals: seq<Hospital>)

  type Directory = seq<CityEntry>

  /** The map invariant: keys are trimmed, strictly increasing under the
      case-insensitive order (hence distinct ignoring case), and every list
      holds at least the hospital that created it. */
  predicate Valid(dir: Directory) {
    && (forall i :: 0 <= i < |dir| ==> |dir[i].hospitals| > 0 && Trimmed(dir[i].city))
    && (forall i, j :: 0 <= i < j < |dir| ==> Before(dir, i, j))
  }

  /** Entry `i`'s key is ordered strictly before entry `j`'s. */
  predicate Before(dir: Directory, i: int, j: int)
    requires 0 <= i < |dir| && 0 <= j < |dir|
  {
    CompareIgnoreCase(dir[i].city, dir[j].city) < 0
  }

  /** No two keys of a valid directory are equal ignoring case. */
  lemma CitiesDistinct(dir: Directory, i: int, j: int)
    requires Valid(dir) && 0 <= i < j < |dir|
    ensures !EqualsIgnoreCase(dir[i].city, dir[j].city)
  {
    assert Before(dir, i, j);
    CompareZeroIffEqualsIgnoreCase(dir[i].city, dir[j].city);
  }

  /** The entry whose key compares equal to `key` under the case-insensitive
      order, searching from `from`. */
  function FindCity(dir: Directory, key: string, from: nat): (r: Option<nat>)
    requires from <= |dir|
    ensures r.Some? ==> from <= r.value < |dir| && EqualsIgnoreCase(dir[r.value].city, key)
    ensures r.None? ==> forall j :: from <= j < |dir| ==> !EqualsIgnoreCase(dir[j].city, key)
    decreases |dir| - from
  {
    if from == |dir| then None
    else if EqualsIgnoreCase(dir[from].city, key) then Some(from)
    else FindCity(dir, key, from + 1)
  }

  /** `TreeMap.get(key)`: the list of the key equal to `key` ignoring case. */
  function Lookup(dir: Directory, key: string): (r: Option<seq<Hospital>>)
    ensures r.None? <==> forall i :: 0 <= i < |dir| ==> !EqualsIgnoreCase(dir[i].city, key)
    ensures r.Some? ==> exists i :: 0 <= i < |dir| && EqualsIgnoreCase(dir[i].city, key) && r.value == dir[i].hospitals
  {
    match FindCity(dir, key, 0)
    case Some(i) => Some(dir[i].hospitals)
    case None => None
  }

  /** The lookup finds a list exactly when some key equals `key` ignoring case. */
  lemma LookupSomeIffKey(dir: Directory, key: string)
    ensures Lookup(dir, key).Some? <==> exists i :: 0 <= i < |dir| && EqualsIgnoreCase(dir[i].city, key)
  {
  }

  /** In a valid directory the lookup of any spelling of a key gives that key's list. */
  lemma LookupAt(dir: Directory, key: string, i: int)
    requires Valid(dir) && 0 <= i < |dir| && EqualsIgnoreCase(dir[i].city, key)
    ensures Lookup(dir, key) == Some(dir[i].hospitals)
  {
    var j := FindCity(dir, key, 0).value;
    assert EqualsIgnoreCase(dir[i].city, dir[j].city);
    if i < j {
      CitiesDistinct(dir, i, j);
    } else if j < i {
      CitiesDistinct(dir, j, i);
    }
  }

  /** Where a new key goes: before the first key ordered after it. */
  function InsertPos(dir: Directory, key: string, from: nat): (p: nat)
    requires from <= |dir|
    ensures from <= p <= |dir|
    ensures forall j :: from <= j < p ==> CompareIgnoreCase(key, dir[j].city) >= 0
    ensures p < |dir| ==> CompareIgnoreCase(key, dir[p].city) < 0
    decreases |dir| - from
  {
    if from == |dir| || CompareIgnoreCase(key, dir[from].city) < 0 then from
    else InsertPos(dir, key, from + 1)
  }

  /** `addHospital(city, name, extra)`: the hospital joins the list of the key
      equal to the trimmed city ignoring case, or starts a new entry under the
      trimmed city at its place in key order. */
  function AddHospital(dir: Directory, city: string, name: string, extra: string): (r: Directory)
    ensures |dir| <= |r| <= |dir| + 1
  {
    var key := Trim(city);
    var h := Hospital(name, city, extra);
    match FindCity(dir, key, 0)
    case Some(i) =>
      dir[i := CityEntry(dir[i].city, dir[i].hospitals + [h])]
    case None =>
      var p := InsertPos(dir, key, 0);
      dir[..p] + [CityEntry(key, [h])] + dir[p..]
  }

  /** Position `q` of a sequence with `e` inserted at `p`. */
  lemma InsertedAt(dir: Directory, p: int, e: CityEntry, q: int)
    requires 0 <= p <= |dir| && 0 <= q <= |dir|
    ensures (dir[..p] + [e] + dir[p..])[q] == if q < p then dir[q] else if q == p then e else dir[q - 1]
  {
  }

  /** Inserting a trimmed key that no key equals ignoring case at its place in
      key order keeps a directory valid. */
  lemma InsertKeepsValid(dir: Directory, key: string, h: Hospital)
    requires Valid(dir) && Trimmed(key)
    requires forall j :: 0 <= j < |dir| ==> !EqualsIgnoreCase(dir[j].city, key)
    ensures var p := InsertPos(dir, key, 0);
            Valid(dir[..p] + [CityEntry(key, [h])] + dir[p..])
  {
    var p := InsertPos(dir, key, 0);
    var e := CityEntry(key, [h]);
    var out := dir[..p] + [e] + dir[p..];
    forall j | 0 <= j < p
      ensures CompareIgnoreCase(dir[j].city, key) < 0
    {
      CompareZeroIffEqualsIgnoreCase(key, dir[j].city);
      CompareAntisymmetric(key, dir[j].city);
    }
    forall j | p <= j < |dir|
      ensures CompareIgnoreCase(key, dir[j].city) < 0
    {
      if j > p {
        assert Before(dir, p, j);
        CompareTransitive(key, dir[p].city, dir[j].city);
      }
    }
    forall q | 0 <= q < |out|
      ensures |out[q].hospitals| > 0 && Trimmed(out[q].city)
    {
      InsertedAt(dir, p, e, q);
    }
    forall a, b | 0 <= a < b < |out|
      ensures Before(out, a, b)
    {
      InsertedAt(dir, p, e, a);
      InsertedAt(dir, p, e, b);
      if a < p && b > p {
        CompareTransitive(dir[a].city, key, dir[b - 1].city);
      } else if b < p {
        assert Before(dir, a, b);
      } else if a > p {
        assert Before(dir, a - 1, b - 1);
      }
    }
  }

  /** Replacing one entry's list by another non-empty list keeps the
      directory valid. */
  lemma ReplaceListKeepsValid(dir: Directory, i: int, hs: seq<Hospital>)
    requires Valid(dir) && 0 <= i < |dir| && |hs| > 0
    ensures Valid(dir[i := CityEntry(dir[i].city, hs)])
  {
    var out := dir[i := CityEntry(dir[i].city, hs)];
    forall a, b | 0 <= a < b < |out|
      ensures Before(out, a, b)
    {
      assert Before(dir, a, b);
    }
  }

  /** Appending to the list of an existing key keeps the directory valid and
      extends that key's list. */
  lemma AddToExisting(dir: Directory, key: string, h: Hospital, i: int)
    requires Valid(dir) && 0 <= i < |dir| && EqualsIgnoreCase(dir[i].city, key)
    ensures var out := dir[i := CityEntry(dir[i].city, dir[i].hospitals + [h])];
            Valid(out) && Lookup(out, key) == Some(dir[i].hospitals + [h])
  {
    var out := dir[i := CityEntry(dir[i].city, dir[i].hospitals + [h])];
    ReplaceListKeepsValid(dir, i, dir[i].hospitals + [h]);
    LookupAt(out, key, i);
  }

  /** Appending to the list of an existing key leaves every other key's list alone. */
  lemma ExistingOtherKey(dir: Directory, key: string, h: Hospital, i: int, c: string)
    requires Valid(dir) && 0 <= i < |dir| && EqualsIgnoreCase(dir[i].city, key)
    requires !EqualsIgnoreCase(c, key)
    ensures Lookup(dir[i := CityEntry(dir[i].city, dir[i].hospitals + [h])], c) == Lookup(dir, c)
  {
    var out := dir[i := CityEntry(dir[i].city, dir[i].hospitals + [h])];
    ReplaceListKeepsValid(dir, i, dir[i].hospitals + [h]);
    match FindCity(dir, c, 0)
    case Some(j) =>
      LookupAt(dir, c, j);
      LookupAt(out, c, j);
    case None =>
      assert FindCity(out, c, 0).None? by {
        NoKeyNoLookup(out, c);
      }
  }

  /** Without a key equal to `c` ignoring case, the lookup of `c` finds nothing. */
  lemma NoKeyNoLookup(dir: Directory, c: string)
    requires forall q :: 0 <= q < |dir| ==> !EqualsIgnoreCase(dir[q].city, c)
    ensures FindCity(dir, c, 0).None? && Lookup(dir, c) == None
  {
  }

  /** Inserting a new key keeps the directory valid and gives the key a
      one-element list. */
  lemma AddNewCity(dir: Directory, key: string, h: Hospital)
    requires Valid(dir) && Trimmed(key)
    requires forall j :: 0 <= j < |dir| ==> !EqualsIgnoreCase(dir[j].city, key)
    ensures var p := InsertPos(dir, key, 0);
            var out := dir[..p] + [CityEntry(key, [h])] + dir[p..];
            Valid(out) && Lookup(out, key) == Some([h])
  {
    var p := InsertPos(dir, key, 0);
    var e := CityEntry(key, [h]);
    var out := dir[..p] + [e] + dir[p..];
    InsertKeepsValid(dir, key, h);
    InsertedAt(dir, p, e, p);
    LookupAt(out, key, p);
  }

  /** Inserting a new key leaves every other key's list alone. */
  lemma NewOtherKey(dir: Directory, out: Directory, p: int, e: CityEntry, c: string)
    requires Valid(dir) && Valid(out) && 0 <= p <= |dir| && out == dir[..p] + [e] + dir[p..]
    requires !EqualsIgnoreCase(e.city, c)
    ensures Lookup(out, c) == Lookup(dir, c)
  {
    match FindCity(dir, c, 0)
    case Some(j) =>
      LookupAt(dir, c, j);
      var q := if j < p then j else j + 1;
      InsertedAt(dir, p, e, q);
      LookupAt(out, c, q);
    case None =>
      InsertedNoKey(dir, p, e, c);
  }

  /** Inserting an entry whose key differs from `c` leaves `c` absent. */
  lemma InsertedNoKey(dir: Directory, p: int, e: CityEntry, c: string)
    requires 0 <= p <= |dir| && !EqualsIgnoreCase(e.city, c)
    requires FindCity(dir, c, 0).None?
    ensures Lookup(dir[..p] + [e] + dir[p..], c) == None
  {
    var out := dir[..p] + [e] + dir[p..];
    forall q | 0 <= q < |out|
      ensures !EqualsIgnoreCase(out[q].city, c)
    {
      InsertedAt(dir, p, e, q);
    }
    NoKeyNoLookup(out, c);
  }

  /** `addHospital` on a valid directory: the result is valid and the trimmed
      city's list (ignoring case) gains the new hospital at its end. */
  lemma AddHospitalSpec(dir: Directory, city: string, name: string, extra: string)
    requires Valid(dir)
    ensures var out := AddHospital(dir, city, name, extra);
            && Valid(out)
            && Lookup(out, Trim(city)) == Some(Lookup(dir, Trim(city)).GetOr([]) + [Hospital(name, city, extra)])
  {
    var key := Trim(city);
    var h := Hospital(name, city, extra);
    match FindCity(dir, key, 0)
    case Some(i) =>
      LookupAt(dir, key, i);
      AddToExisting(dir, key, h, i);
    case None =>
      AddNewCity(dir, key, h);
      assert Lookup(dir, key).GetOr([]) + [h] == [h];
  }

  /** `addHospital` leaves the list of every key other than the trimmed city alone. */
  lemma AddHospitalKeepsOthers(dir: Directory, city: string, name: string, extra: string, c: string)
    requires Valid(dir) && !EqualsIgnoreCase(c, Trim(city))
    ensures Lookup(AddHospital(dir, city, name, extra), c) == Lookup(dir, c)
  {
    var key := Trim(city);
    var h := Hospital(name, city, extra);
    match FindCity(dir, key, 0)
    case Some(i) =>
      ExistingOtherKey(dir, key, h, i, c);
    case None =>
      AddNewCity(dir, key, h);
      var p := InsertPos(dir, key, 0);
      NewOtherKey(dir, dir[..p] + [CityEntry(key, [h])] + dir[p..], p, CityEntry(key, [h]), c);
  }

  /** One seed line of `populateHospitals`. */
  datatype SeedRow = SeedRow(city: string, name: string, extra: string)

  /** `populateHospitals`: the seed lines added in order. */
  function AddAll(dir: Directory, rows: seq<SeedRow>): Directory
    decreases |rows|
  {
    if |rows| == 0 then dir
    else AddAll(AddHospital(dir, rows[0].city, rows[0].name, rows[0].extra), rows[1..])
  }

  /** Seeding keeps a directory valid. */
  lemma {:induction false} AddAllKeepsValid(dir: Directory, rows: seq<SeedRow>)
    requires Valid(dir)
    ensures Valid(AddAll(dir, rows))
    decreases |rows|
  {
    if |rows| > 0 {
      AddHospitalSpec(dir, rows[0].city, rows[0].name, rows[0].extra);
      AddAllKeepsValid(AddHospital(dir, rows[0].city, rows[0].name, rows[0].extra), rows[1..]);
    }
  }

  /** After seeding, every seeded hospital is listed under its trimmed city. */
  lemma {:induction false} AddAllListsEverySeed(dir: Directory, rows: seq<SeedRow>, k: int)
    requires Valid(dir) && 0 <= k < |rows|
    ensures var out := AddAll(dir, rows);
            && Lookup(out, Trim(rows[k].city)).Some?
            && Hospital(rows[k].name, rows[k].city, rows[k].extra) in Lookup(out, Trim(rows[k].city)).value
    decreases |rows|
  {
    var r := rows[0];
    var d1 := AddHospital(dir, r.city, r.name, r.extra);
    assert AddAll(dir, rows) == AddAll(d1, rows[1..]);
    AddHospitalSpec(dir, r.city, r.name, r.extra);
    if k == 0 {
      KeptThroughAddAll(d1, rows[1..], Trim(r.city), Hospital(r.name, r.city, r.extra));
    } else {
      AddAllListsEverySeed(d1, rows[1..], k - 1);
      assert rows[1..][k - 1] == rows[k];
    }
  }

  /** The hospitals of the seed lines whose trimmed city equals `c` ignoring
      case, in seed order. */
  function Seeded(rows: seq<SeedRow>, c: string): seq<Hospital>
    decreases |rows|
  {
    if |rows| == 0 then []
    else SeededHead(rows[0], c) + Seeded(rows[1..], c)
  }

  function SeededHead(r: SeedRow, c: string): seq<Hospital> {
    if EqualsIgnoreCase(Trim(r.city), c) then [Hospital(r.name, r.city, r.extra)] else []
  }

  /** One `addHospital` extends the list of `c` by the new hospital exactly
      when its trimmed city is `c` ignoring case, and leaves it alone otherwise. */
  lemma AddOneListed(dir: Directory, r: SeedRow, c: string)
    requires Valid(dir)
    ensures var out := AddHospital(dir, r.city, r.name, r.extra);
            && Valid(out)
            && Lookup(out, c).GetOr([]) == Lookup(dir, c).GetOr([]) + SeededHead(r, c)
  {
    var out := AddHospital(dir, r.city, r.name, r.extra);
    AddHospitalSpec(dir, r.city, r.name, r.extra);
    if EqualsIgnoreCase(Trim(r.city), c) {
      LookupIgnoresCase(out, c, Trim(r.city));
      LookupIgnoresCase(dir, c, Trim(r.city));
    } else {
      AddHospitalKeepsOthers(dir, r.city, r.name, r.extra, c);
    }
  }

  /** Two successive extensions of a list extend it by their concatenation. */
  lemma ChainLists(l0: seq<Hospital>, l1: seq<Hospital>, l2: seq<Hospital>, a: seq<Hospital>, b: seq<Hospital>)
    requires l1 == l0 + a && l2 == l1 + b
    ensures l2 == l0 + (a + b)
  {
  }

  /** Seeding adds the first line, then the rest. */
  lemma AddAllStep(dir: Directory, rows: seq<SeedRow>)
    requires |rows| > 0
    ensures AddAll(dir, rows) == AddAll(AddHospital(dir, rows[0].city, rows[0].name, rows[0].extra), rows[1..])
  {
  }

  /** After seeding, every key's list is its old list followed by exactly the
      hospitals of its seed lines, in seed order. */
  lemma {:induction false} AddAllListsExactly(dir: Directory, rows: seq<SeedRow>, c: string)
    requires Valid(dir)
    ensures Lookup(AddAll(dir, rows), c).GetOr([]) == Lookup(dir, c).GetOr([]) + Seeded(rows, c)
    decreases |rows|
  {
    if |rows| > 0 {
      var r := rows[0];
      var d1 := AddHospital(dir, r.city, r.name, r.extra);
      AddAllStep(dir, rows);
      AddOneListed(dir, r, c);
      AddAllListsExactly(d1, rows[1..], c);
      ChainLists(Lookup(dir, c).GetOr([]), Lookup(d1, c).GetOr([]), Lookup(AddAll(d1, rows[1..]), c).GetOr([]),
                 SeededHead(r, c), Seeded(rows[1..], c));
    } else {
      assert AddAll(dir, rows) == dir && Seeded(rows, c) == [];
    }
  }

  /** A hospital listed under a key stays listed through further seeding. */
  lemma {:induction false} KeptThroughAddAll(dir: Directory, rows: seq<SeedRow>, key: string, h: Hospital)
    requires Valid(dir)
    requires Lookup(dir, key).Some? && h in Lookup(dir, key).value
    ensures Lookup(AddAll(dir, rows), key).Some? && h in Lookup(AddAll(dir, rows), key).value
    decreases |rows|
  {
    if |rows| > 0 {
      var r := rows[0];
      var d1 := AddHospital(dir, r.city, r.name, r.extra);
      AddHospitalSpec(dir, r.city, r.name, r.extra);
      if EqualsIgnoreCase(key, Trim(r.city)) {
        LookupIgnoresCase(d1, key, Trim(r.city));
        LookupIgnoresCase(dir, key, Trim(r.city));
      } else {
        AddHospitalKeepsOthers(dir, r.city, r.name, r.extra, key);
      }
      KeptThroughAddAll(d1, rows[1..], key, h);
    }
  }

  /** Keys equal ignoring case are looked up alike. */
  lemma LookupIgnoresCase(dir: Directory, a: string, b: string)
    requires EqualsIgnoreCase(a, b)
    ensures Lookup(dir, a) == Lookup(dir, b)
  {
    FindCityIgnoresCase(dir, a, b, 0);
  }

  lemma {:induction false} FindCityIgnoresCase(dir: Directory, a: string, b: string, from: nat)
    requires EqualsIgnoreCase(a, b) && from <= |dir|
    ensures FindCity(dir, a, from) == FindCity(dir, b, from)
    decreases |dir| - from
  {
    if from < |dir| {
      FindCityIgnoresCase(dir, a, b, from + 1);
    }
  }

  /** The cities whose hospitals make up the fallback list, in its order. */
  const TopCities: seq<string> :=
    ["Batangas City", "Lipa City", "Tanauan City", "Bauan", "Sto. Tomas", "Balayan", "Nasugbu", "Lemery"]

  /** The lists of `cities` concatenated in order, skipping absent ones. */
  function Gather(dir: Directory, cities: seq<string>): seq<Hospital>
    decreases |cities|
  {
    if |cities| == 0 then []
    else Lookup(dir, cities[0]).GetOr([]) + Gather(dir, cities[1..])
  }

  /** `getTopHospitals`. */
  function TopHospitals(dir: Directory): seq<Hospital> {
    Gather(dir, TopCities)
  }

  /** A hospital is gathered exactly when it is in the list of one of the cities. */
  lemma {:induction false} GatherMembership(dir: Directory, cities: seq<string>, h: Hospital)
    ensures h in Gather(dir, cities) <==>
              exists k :: 0 <= k < |cities| && Lookup(dir, cities[k]).Some? && h in Lookup(dir, cities[k]).value
    decreases |cities|
  {
    if |cities| > 0 {
      GatherMembership(dir, cities[1..], h);
      if h in Gather(dir, cities[1..]) {
        var k :| 0 <= k < |cities[1..]| && Lookup(dir, cities[1..][k]).Some? && h in Lookup(dir, cities[1..][k]).value;
        assert cities[1..][k] == cities[k + 1];
      }
      if exists k :: 0 <= k < |cities| && Lookup(dir, cities[k]).Some? && h in Lookup(dir, cities[k]).value {
        var k :| 0 <= k < |cities| && Lookup(dir, cities[k]).Some? && h in Lookup(dir, cities[k]).value;
        if k > 0 {
          assert cities[1..][k - 1] == cities[k];
        }
      }
    }
  }

  /** The fallback list holds exactly the hospitals of the eight notable
      cities that are present, and starts with the whole Batangas City list. */
  lemma TopHospitalsContents(dir: Directory, h: Hospital)
    ensures h in TopHospitals(dir) <==>
              exists c :: c in TopCities && Lookup(dir, c).Some? && h in Lookup(dir, c).value
    ensures Lookup(dir, "Batangas City").GetOr([]) <= TopHospitals(dir)
  {
    GatherListedCity(dir, TopCities, h);
    GatherStartsWithFirst(dir, TopCities);
  }

  /** Membership in the gathered list, with the cities taken as a collection. */
  lemma GatherListedCity(dir: Directory, cities: seq<string>, h: Hospital)
    ensures h in Gather(dir, cities) <==>
              exists c :: c in cities && Lookup(dir, c).Some? && h in Lookup(dir, c).value
  {
    GatherMembership(dir, cities, h);
    if exists c :: c in cities && Lookup(dir, c).Some? && h in Lookup(dir, c).value {
      var c :| c in cities && Lookup(dir, c).Some? && h in Lookup(dir, c).value;
      var k :| 0 <= k < |cities| && cities[k] == c;
    }
  }

  /** Gathering over a concatenation of city lists concatenates the results. */
  lemma {:induction false} GatherAppend(dir: Directory, a: seq<string>, b: seq<string>)
    ensures Gather(dir, a + b) == Gather(dir, a) + Gather(dir, b)
    decreases |a|
  {
    if |a| > 0 {
      assert (a + b)[1..] == a[1..] + b;
      GatherAppend(dir, a[1..], b);
    } else {
      assert a + b == b;
    }
  }

  /** The list of the `k`-th city sits between those of the cities before and
      after it. */
  lemma GatherAt(dir: Directory, cities: seq<string>, k: int)
    requires 0 <= k < |cities|
    ensures Gather(dir, cities) == Gather(dir, cities[..k]) + Lookup(dir, cities[k]).GetOr([]) + Gather(dir, cities[k + 1..])
  {
    assert cities == cities[..k] + cities[k..];
    GatherAppend(dir, cities[..k], cities[k..]);
    assert cities[k..][1..] == cities[k + 1..];
  }

  /** `getTopHospitals`: the lists of the eight notable cities (Batangas City,
      Lipa City, Tanauan City, Bauan, Sto. Tomas, Balayan, Nasugbu, Lemery),
      each whole and in this order, absent cities contributing nothing. */
  lemma TopHospitalsInOrder(dir: Directory)
    ensures var t := TopCities;
            TopHospitals(dir) ==
              Lookup(dir, t[0]).GetOr([]) + (Lookup(dir, t[1]).GetOr([])
              + (Lookup(dir, t[2]).GetOr([]) + (Lookup(dir, t[3]).GetOr([])
              + (Lookup(dir, t[4]).GetOr([]) + (Lookup(dir, t[5]).GetOr([])
              + (Lookup(dir, t[6]).GetOr([]) + Lookup(dir, t[7]).GetOr([])))))))
  {
    GatherEight(dir, TopCities);
  }

  /** Gathering eight cities concatenates their eight lists in order. */
  lemma GatherEight(dir: Directory, cs: seq<string>)
    requires |cs| == 8
    ensures Gather(dir, cs) ==
              Lookup(dir, cs[0]).GetOr([]) + (Lookup(dir, cs[1]).GetOr([])
              + (Lookup(dir, cs[2]).GetOr([]) + (Lookup(dir, cs[3]).GetOr([])
              + (Lookup(dir, cs[4]).GetOr([]) + (Lookup(dir, cs[5]).GetOr([])
              + (Lookup(dir, cs[6]).GetOr([]) + Lookup(dir, cs[7]).GetOr([])))))))
  {
    assert cs[0..] == cs;
    GatherDrop(dir, cs, 0);
    GatherDrop(dir, cs, 1);
    GatherDrop(dir, cs, 2);
    GatherDrop(dir, cs, 3);
    GatherDrop(dir, cs, 4);
    GatherDrop(dir, cs, 5);
    GatherDrop(dir, cs, 6);
    GatherDrop(dir, cs, 7);
    var last := Lookup(dir, cs[7]).GetOr([]);
    assert Gather(dir, cs[8..]) == [];
    assert last + [] == last;
  }

  /** Gathering from position `k` puts the `k`-th list in front of the rest. */
  lemma GatherDrop(dir: Directory, cs: seq<string>, k: int)
    requires 0 <= k < |cs|
    ensures Gather(dir, cs[k..]) == Lookup(dir, cs[k]).GetOr([]) + Gather(dir, cs[k + 1..])
  {
    assert cs[k..][1..] == cs[k + 1..];
  }

  /** The gathered list starts with the whole list of the first city. */
  lemma GatherStartsWithFirst(dir: Directory, cities: seq<string>)
    requires |cities| > 0
    ensures Lookup(dir, cities[0]).GetOr([]) <= Gather(dir, cities)
  {
  }

  /** What the directory scan accepts: the key as a case-insensitive substring
      of the city (which covers a city equal to the key ignoring case). */
  predicate CityMatches(city: string, key: string) {
    ContainsIgnoreCase(city, key)
  }

  /** `i` is the first entry, in key order, whose city matches. */
  predicate FirstMatchAt(dir: Directory, key: string, i: int) {
    && 0 <= i < |dir|
    && CityMatches(dir[i].city, key)
    && forall j :: 0 <= j < i ==> !CityMatches(dir[j].city, key)
  }

  /** The `keySet` loop of `findHospitalsByCity`, whose test is
      `c.equalsIgnoreCase(key) || c.toLowerCase().contains(key.toLowerCase())`. */
  function ScanCities(dir: Directory, key: string, from: nat): (r: Option<nat>)
    requires from <= |dir|
    ensures r.Some? ==> from <= r.value < |dir| && CityMatches(dir[r.value].city, key)
    ensures r.Some? ==> forall j :: from <= j < r.value ==> !CityMatches(dir[j].city, key)
    ensures r.None? ==> forall j :: from <= j < |dir| ==> !CityMatches(dir[j].city, key)
    decreases |dir| - from
  {
    if from == |dir| then None
    else
      var c := dir[from].city;
      if EqualsIgnoreCase(c, key) || ContainsIgnoreCase(c, key) then
        assert CityMatches(c, key) by {
          if EqualsIgnoreCase(c, key) {
            EqualsImpliesContains(c, key);
          }
        }
        Some(from)
      else ScanCities(dir, key, from + 1)
  }

  /** The non-blank branch of `findHospitalsByCity` for the trimmed key: the
      key's own non-empty list, else the list of the first city in key order
      containing the key ignoring case, else `fallback`. */
  function FindByKey(dir: Directory, key: string, fallback: seq<Hospital>): (r: seq<Hospital>)
    ensures Lookup(dir, key).Some? && |Lookup(dir, key).value| > 0 ==> r == Lookup(dir, key).value
    ensures !(Lookup(dir, key).Some? && |Lookup(dir, key).value| > 0) ==>
              && (forall i :: FirstMatchAt(dir, key, i) ==> r == dir[i].hospitals)
              && ((forall i :: 0 <= i < |dir| ==> !CityMatches(dir[i].city, key)) ==> r == fallback)
  {
    var local := Lookup(dir, key);
    if local.Some? && |local.value| > 0 then local.value
    else
      match ScanCities(dir, key, 0)
      case Some(i) => dir[i].hospitals
      case None => fallback
  }

  /** `findHospitalsByCity`: a blank city gives the fallback list of the
      notable cities; any other city is looked up by its trimmed form. */
  function FindHospitalsByCity(dir: Directory, city: string): (r: seq<Hospital>)
    ensures IsBlank(city) ==> r == TopHospitals(dir)
    ensures !IsBlank(city) ==> r == FindByKey(dir, Trim(city), TopHospitals(dir))
  {
    if |Trim(city)| == 0 then TopHospitals(dir)
    else FindByKey(dir, Trim(city), TopHospitals(dir))
  }

  /** A city that no city contains, ignoring case, gets the fallback list. */
  lemma FindUnknownCity(dir: Directory, city: string)
    requires Valid(dir)
    requires forall i :: 0 <= i < |dir| ==> !CityMatches(dir[i].city, Trim(city))
    ensures FindHospitalsByCity(dir, city) == TopHospitals(dir)
  {
    if Lookup(dir, Trim(city)).Some? {
      var i :| 0 <= i < |dir| && EqualsIgnoreCase(dir[i].city, Trim(city));
      EqualsImpliesContains(dir[i].city, Trim(city));
    }
  }

  /** A city equal (ignoring case, after trimming) to a key of a valid
      directory finds that key's list. */
  lemma FindExactCity(dir: Directory, city: string, i: int)
    requires Valid(dir) && 0 <= i < |dir| && !IsBlank(city)
    requires EqualsIgnoreCase(dir[i].city, Trim(city))
    ensures FindHospitalsByCity(dir, city) == dir[i].hospitals
  {
    LookupAt(dir, Trim(city), i);
  }

  /** A partial city name that equals no key finds the same list as the full
      name of the first city, in key order, that contains it. */
  lemma FindPartialCity(dir: Directory, city: string, i: int)
    requires Valid(dir) && !IsBlank(city)
    requires forall j :: 0 <= j < |dir| ==> !EqualsIgnoreCase(dir[j].city, Trim(city))
    requires FirstMatchAt(dir, Trim(city), i)
    ensures FindHospitalsByCity(dir, city) == FindHospitalsByCity(dir, dir[i].city) == dir[i].hospitals
  {
    var c := dir[i].city;
    MatchedCityNotBlank(c, Trim(city));
    TrimmedIffFixed(c);
    FindExactCity(dir, c, i);
  }

  /** A trimmed city containing a non-empty key is not blank. */
  lemma MatchedCityNotBlank(c: string, key: string)
    requires Trimmed(c) && |key| > 0 && ContainsIgnoreCase(c, key)
    ensures !IsBlank(c)
  {
    var n :| 0 <= n <= |Lower(c)| && Lower(key) <= Lower(c)[n..];
    assert |c| > 0;
  }

  /** "lipa" finds the Lipa City list when no other city contains "lipa". */
  lemma LipaFindsLipaCity(dir: Directory, i: int)
    requires Valid(dir) && 0 <= i < |dir| && dir[i].city == "Lipa City"
    requires forall j :: 0 <= j < |dir| && j != i ==> !ContainsIgnoreCase(dir[j].city, "lipa")
    ensures FindHospitalsByCity(dir, "lipa") == FindHospitalsByCity(dir, "Lipa City") == dir[i].hospitals
  {
    var key := "lipa";
    assert SkipLeading(key, 0) == 0;
    assert SkipTrailing(key, 0, 4) == 4;
    assert Trim(key) == key;
    assert !IsBlank(key) by { assert key[0] > ' '; }
    assert Lower(key) == key;
    assert Lower("Lipa City")[0..4] == key;
    assert CityMatches(dir[i].city, key) by {
      assert key <= Lower("Lipa City")[0..];
    }
    forall j | 0 <= j < |dir|
      ensures !EqualsIgnoreCase(dir[j].city, key)
    {
      if j != i && EqualsIgnoreCase(dir[j].city, key) {
        EqualsImpliesContains(dir[j].city, key);
      }
    }
    assert FirstMatchAt(dir, key, i);
    FindPartialCity(dir, key, i);
  }
}
