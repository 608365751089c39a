/** The geocoding cache: the Place table (places/models.py), the parsing tail of
    `fetch_coordinates` and the batch resolver `get_serialized_places_and_coordinates`
    (places/views.py). The HTTP request is an oracle: `geocoder(address, n)` is what
    the n-th call of the run (counting from 0) yields for `address`. */
module Places {
  import opened Records
  import opened Collections

  /** A row of the Place table. Coordinates are kept as the decimal text the
      geocoder sends; `savedAt` is the `saved_at` stamp. */
  datatype Place = Place(address: string, lon: Option<string>, lat: Option<string>, savedAt: int)

  /** The three ways `get_or_create` can end: the row was there, it was inserted,
      or an insert clashed with the unique address of a row holding other
      coordinates (IntegrityError, re-raised after the second lookup fails). */
  datatype Saved = Got | Created | Clash

  class PlaceTable {
    var rows: map<string, Place>

    /** `unique=True` on `address`: the table is keyed by it. */
    ghost predicate Valid()
      reads this
    {
      forall a :: a in rows ==> rows[a].address == a
    }

    constructor (initial: map<string, Place>)
      requires forall a :: a in initial ==> initial[a].address == a
      ensures Valid() && rows == initial
    {
      rows := initial;
    }

    /** `Place.objects.get_or_create(address=address, lon=lon, lat=lat)`, stamping
        a new row with `now`. */
    method GetOrCreate(address: string, lon: string, lat: string, now: int) returns (saved: Saved)
      requires Valid()
      modifies this
      ensures Valid()
      ensures address !in old(rows) ==>
                saved == Created && rows == old(rows)[address := Place(address, Some(lon), Some(lat), now)]
      ensures address in old(rows) ==> rows == old(rows) && saved != Created
      ensures address in old(rows) ==>
                (saved == Got <==> old(rows)[address].lon == Some(lon) && old(rows)[address].lat == Some(lat))
    {
      if address in rows {
        var row := rows[address];
        saved := if row.lon == Some(lon) && row.lat == Some(lat) then Got else Clash;
      } else {
        rows := rows[address := Place(address, Some(lon), Some(lat), now)];
        saved := Created;
      }
    }
  }

  /** What the geocoder's HTTP call yields: a failure (connection error,
      `raise_for_status`, a reply without the expected keys), or the `pos`
      strings of the `featureMember` list, most relevant first. */
  datatype GeoResponse = Unreachable | Features(positions: seq<string>)

  /** What `fetch_coordinates` does with a response: raise, return None, or
      return the pair `(lon, lat)`. */
  datatype Fetched = Failed | NotFound | Found(lon: string, lat: string)

  predicate NoSpace(s: string) {
    forall i :: 0 <= i < |s| ==> s[i] != ' '
  }

  /** Python's `s.split(" ")`: every space separates, so neighbouring spaces
      give empty parts. */
  function Split(s: string): (parts: seq<string>)
    ensures |parts| >= 1
  {
    if s == [] then [""]
    else
      var rest := Split(s[1..]);
      if s[0] == ' ' then [""] + rest else [[s[0]] + rest[0]] + rest[1..]
  }

  /** `" ".join(parts)` */
  function JoinSpaces(parts: seq<string>): string
    requires |parts| >= 1
  {
    if |parts| == 1 then parts[0] else parts[0] + " " + JoinSpaces(parts[1..])
  }

  /** No part of a split holds a space. */
  lemma {:induction false} SplitPartsSpaceFree(s: string)
    ensures forall k :: 0 <= k < |Split(s)| ==> NoSpace(Split(s)[k])
  {
    if s != [] {
      SplitPartsSpaceFree(s[1..]);
      var rest := Split(s[1..]);
      if s[0] != ' ' {
        var head := [s[0]] + rest[0];
        assert NoSpace(head) by {
          forall i | 0 <= i < |head| ensures head[i] != ' ' {
            if i > 0 { assert head[i] == rest[0][i - 1]; }
          }
        }
        assert Split(s) == [head] + rest[1..];
        forall k | 0 <= k < |Split(s)| ensures NoSpace(Split(s)[k]) {
          if k > 0 { assert Split(s)[k] == rest[k]; }
        }
      }
    }
  }

  /** Joining the parts of a split with spaces gives the string back. */
  lemma {:induction false} SplitJoins(s: string)
    ensures JoinSpaces(Split(s)) == s
  {
    if s != [] {
      SplitJoins(s[1..]);
      if s[0] == ' ' {
        JoinAfterSpace(s);
      } else {
        JoinAfterLetter(s);
      }
    }
  }

  /** The inductive step of `SplitJoins` for a leading space. */
  lemma JoinAfterSpace(s: string)
    requires s != [] && s[0] == ' ' && JoinSpaces(Split(s[1..])) == s[1..]
    ensures JoinSpaces(Split(s)) == s
  {
    var rest := Split(s[1..]);
    var parts := [""] + rest;
    assert Split(s) == parts && parts[1..] == rest;
    assert JoinSpaces(parts) == "" + " " + s[1..];
    assert s == [s[0]] + s[1..];
  }

  /** The inductive step of `SplitJoins` for a leading non-space. */
  lemma JoinAfterLetter(s: string)
    requires s != [] && s[0] != ' ' && JoinSpaces(Split(s[1..])) == s[1..]
    ensures JoinSpaces(Split(s)) == s
  {
    var rest := Split(s[1..]);
    var parts := [[s[0]] + rest[0]] + rest[1..];
    assert Split(s) == parts;
    JoinExtendsHead(s[0], rest[0], rest[1..]);
    assert rest == [rest[0]] + rest[1..];
    assert s == [s[0]] + s[1..];
  }

  /** Prefixing the first part with `c` prefixes the joined string with `c`. */
  lemma JoinExtendsHead(c: char, first: string, more: seq<string>)
    ensures JoinSpaces([[c] + first] + more) == [c] + JoinSpaces([first] + more)
  {
    var parts := [[c] + first] + more;
    var plain := [first] + more;
    if more != [] {
      assert parts[1..] == more && plain[1..] == more;
      var tail := JoinSpaces(more);
      assert JoinSpaces(parts) == ([c] + first) + " " + tail;
      assert JoinSpaces(plain) == first + " " + tail;
    }
  }

  /** Splitting loses nothing: the parts hold no space and joining them gives `s` back. */
  lemma SplitThenJoin(s: string)
    ensures forall k :: 0 <= k < |Split(s)| ==> NoSpace(Split(s)[k])
    ensures JoinSpaces(Split(s)) == s
  {
    SplitPartsSpaceFree(s);
    SplitJoins(s);
  }

  /** A space-free prefix extends the first part. */
  lemma {:induction false} SplitSpaceFreePrefix(a: string, t: string)
    requires NoSpace(a)
    ensures Split(a + t) == [a + Split(t)[0]] + Split(t)[1..]
  {
    if a != [] {
      assert (a + t)[1..] == a[1..] + t;
      assert NoSpace(a[1..]) by {
        forall i | 0 <= i < |a[1..]| ensures a[1..][i] != ' ' { assert a[1..][i] == a[i + 1]; }
      }
      SplitSpaceFreePrefix(a[1..], t);
      assert (a + t)[0] == a[0];
      assert [a[0]] + (a[1..] + Split(t)[0]) == a + Split(t)[0];
    } else {
      assert a + t == t;
      assert a + Split(t)[0] == Split(t)[0];
      assert Split(t) == [Split(t)[0]] + Split(t)[1..];
    }
  }

  /** Joining space-free parts and splitting again gives the parts back. */
  lemma {:induction false} JoinThenSplit(parts: seq<string>)
    requires |parts| >= 1
    requires forall k :: 0 <= k < |parts| ==> NoSpace(parts[k])
    ensures Split(JoinSpaces(parts)) == parts
  {
    if |parts| == 1 {
      SplitSpaceFreePrefix(parts[0], "");
      assert parts[0] + "" == parts[0];
    } else {
      JoinThenSplit(parts[1..]);
      var tail := " " + JoinSpaces(parts[1..]);
      assert parts[0] + " " + JoinSpaces(parts[1..]) == parts[0] + tail;
      SplitSpaceFreePrefix(parts[0], tail);
      assert tail[1..] == JoinSpaces(parts[1..]);
      assert Split(tail) == [""] + parts[1..];
      assert parts[0] + "" == parts[0];
      assert parts == [parts[0]] + parts[1..];
    }
  }

  /** `lon, lat = pos.split(" ")`: unpacking raises unless there are exactly two parts. */
  function ParsePos(pos: string): Fetched {
    var parts := Split(pos);
    if |parts| == 2 then Found(parts[0], parts[1]) else Failed
  }

  /** `"<lon> <lat>"` parses to `(lon, lat)`, in that order. */
  lemma ParsePosOfPair(lon: string, lat: string)
    requires NoSpace(lon) && NoSpace(lat)
    ensures ParsePos(lon + " " + lat) == Found(lon, lat)
  {
    JoinThenSplit([lon, lat]);
    assert JoinSpaces([lon, lat]) == lon + " " + JoinSpaces([lat]);
  }

  /** A parsed position is exactly `"<lon> <lat>"` with space-free parts, and
      any other text raises. */
  lemma ParsePosFound(pos: string)
    ensures ParsePos(pos).Found? ==>
              NoSpace(ParsePos(pos).lon) && NoSpace(ParsePos(pos).lat) &&
              pos == ParsePos(pos).lon + " " + ParsePos(pos).lat
    ensures ParsePos(pos).Found? || ParsePos(pos).Failed?
  {
    SplitThenJoin(pos);
    var parts := Split(pos);
    if |parts| == 2 {
      assert JoinSpaces(parts) == parts[0] + " " + JoinSpaces(parts[1..]);
    }
  }

  /** The tail of `fetch_coordinates`: no features gives None, otherwise the
      first feature's `pos` is split into `(lon, lat)`. */
  function FetchCoordinates(response: GeoResponse): Fetched {
    match response
    case Unreachable => Failed
    case Features(positions) => if positions == [] then NotFound else ParsePos(positions[0])
  }

  /** `fetch_coordinates` returns `(lon, lat)` exactly when the first feature's
      `pos` is those two space-free texts joined by one space, and None exactly
      when the response lists no feature. */
  lemma FetchFound(response: GeoResponse, lon: string, lat: string)
    ensures FetchCoordinates(response) == Found(lon, lat) <==>
              response.Features? && response.positions != [] &&
              response.positions[0] == lon + " " + lat && NoSpace(lon) && NoSpace(lat)
    ensures FetchCoordinates(response) == NotFound <==> response == Features([])
  {
    if response.Features? && response.positions != [] {
      ParsePosFound(response.positions[0]);
      if NoSpace(lon) && NoSpace(lat) && response.positions[0] == lon + " " + lat {
        ParsePosOfPair(lon, lat);
      }
    }
  }

  /** How the resolver reports an address: a preloaded row as `[lon, lat]` (its
      columns may be NULL), a fresh lookup as `[(lon, lat)]`, a lookup that found
      nothing as None. */
  datatype Coords = Cached(storedLon: Option<string>, storedLat: Option<string>) | Fresh(lon: string, lat: string) | Missing

  function Shape(f: Fetched): Coords {
    match f
    case Found(lon, lat) => Fresh(lon, lat)
    case _ => Missing
  }

  /** The batch entries the resolver hands to the geocoder: those not in
      `cached`, in batch order, repeats included. */
  function Misses(batch: seq<string>, cached: set<string>): seq<string> {
    if batch == [] then []
    else Misses(batch[..|batch| - 1], cached) + (if batch[|batch| - 1] in cached then [] else [batch[|batch| - 1]])
  }

  lemma {:induction false} MissesCount(batch: seq<string>, cached: set<string>, a: string)
    ensures Count(Misses(batch, cached), a) == if a in cached then 0 else Count(batch, a)
  {
    if batch != [] {
      var init := batch[..|batch| - 1];
      MissesCount(init, cached, a);
      var extra := if batch[|batch| - 1] in cached then [] else [batch[|batch| - 1]];
      var m := Misses(init, cached) + extra;
      if extra == [] {
        assert m == Misses(init, cached);
      } else {
        assert m[..|m| - 1] == Misses(init, cached);
      }
    }
  }

  lemma {:induction false} MissesPrefix(batch: seq<string>, cached: set<string>, i: nat)
    requires i <= |batch|
    ensures Misses(batch[..i], cached) <= Misses(batch, cached)
    decreases |batch| - i
  {
    if i < |batch| {
      MissesPrefix(batch, cached, i + 1);
      assert batch[..i + 1][..i] == batch[..i];
    } else {
      assert batch[..i] == batch;
    }
  }

  lemma {:induction false} MissesMember(batch: seq<string>, cached: set<string>, a: string)
    ensures a in Misses(batch, cached) <==> a in batch && a !in cached
  {
    if batch != [] {
      var init := batch[..|batch| - 1];
      MissesMember(init, cached, a);
      assert batch == init + [batch[|batch| - 1]];
    }
  }

  /** Position of the last occurrence of `a`. */
  function LastIndex(s: seq<string>, a: string): (i: nat)
    requires a in s
    ensures i < |s| && s[i] == a
    ensures forall j :: i < j < |s| ==> s[j] != a
  {
    if s[|s| - 1] == a then |s| - 1
    else
      assert a in s[..|s| - 1] by {
        var k :| 0 <= k < |s| && s[k] == a;
        assert s[..|s| - 1][k] == a;
      }
      LastIndex(s[..|s| - 1], a)
  }

  /** What the resolver maps `a` to, given the table before the run (`rows`), the
      addresses handed to the geocoder (`calls`) and its answers: a preloaded row
      as stored; otherwise the outcome of the last lookup of `a`. */
  function ResolvedAs(a: string, rows: map<string, Place>, calls: seq<string>,
                      geocoder: (string, nat) -> GeoResponse): Coords
  {
    if a in rows then Cached(rows[a].lon, rows[a].lat)
    else if a in calls then Shape(FetchCoordinates(geocoder(a, LastIndex(calls, a))))
    else Missing
  }

  /** The answer of the first lookup of `a` among `calls` that found
      coordinates: `get_or_create` stores those, and a later lookup never
      changes the row. */
  function FirstFound(calls: seq<string>, a: string, geocoder: (string, nat) -> GeoResponse): (r: Option<Fetched>)
    ensures r.Some? ==> r.value.Found?
  {
    if calls == [] then None
    else
      var earlier := FirstFound(calls[..|calls| - 1], a, geocoder);
      var answer := FetchCoordinates(geocoder(a, |calls| - 1));
      if earlier.Some? then earlier
      else if calls[|calls| - 1] == a && answer.Found? then Some(answer)
      else None
  }

  /** `FirstFound` is what its name says: some lookup of `a` found coordinates
      exactly when it is defined, and then it is the answer of the earliest one. */
  lemma {:induction false} FirstFoundMeaning(calls: seq<string>, a: string, geocoder: (string, nat) -> GeoResponse)
    ensures FirstFound(calls, a, geocoder).Some? <==>
              exists j :: 0 <= j < |calls| && calls[j] == a && FetchCoordinates(geocoder(a, j)).Found?
    ensures FirstFound(calls, a, geocoder).Some? ==>
              exists j :: 0 <= j < |calls| && calls[j] == a &&
                          FetchCoordinates(geocoder(a, j)) == FirstFound(calls, a, geocoder).value &&
                          forall k :: 0 <= k < j && calls[k] == a ==> !FetchCoordinates(geocoder(a, k)).Found?
  {
    if calls != [] {
      var init := calls[..|calls| - 1];
      FirstFoundMeaning(init, a, geocoder);
      forall j | 0 <= j < |init| ensures init[j] == calls[j] { }
      if FirstFound(init, a, geocoder).None? && calls[|calls| - 1] == a &&
         FetchCoordinates(geocoder(a, |calls| - 1)).Found? {
        assert forall k :: 0 <= k < |calls| - 1 && calls[k] == a ==> init[k] == a;
      }
    }
  }

  /** One more lookup of `b` can only fix the first find of `b`. */
  lemma FirstFoundAppend(calls: seq<string>, b: string, geocoder: (string, nat) -> GeoResponse)
    ensures forall a :: FirstFound(calls + [b], a, geocoder) ==
              if FirstFound(calls, a, geocoder).Some? then FirstFound(calls, a, geocoder)
              else if a == b && FetchCoordinates(geocoder(b, |calls|)).Found? then Some(FetchCoordinates(geocoder(b, |calls|)))
              else None
  {
    var c := calls + [b];
    assert c[..|c| - 1] == calls;
  }

  /** The row `get_or_create` inserts for a found `answer`, stamped `now`. */
  function StoredRow(a: string, answer: Fetched, now: int): Place {
    if answer.Found? then Place(a, Some(answer.lon), Some(answer.lat), now) else Place(a, None, None, now)
  }

  /** One more lookup of `b` changes what `b` resolves to and nothing else. */
  lemma CallAppendedResolved(rows: map<string, Place>, calls: seq<string>, b: string,
                             geocoder: (string, nat) -> GeoResponse)
    requires b !in rows
    ensures ResolvedAs(b, rows, calls + [b], geocoder) == Shape(FetchCoordinates(geocoder(b, |calls|)))
    ensures forall a :: a != b ==> ResolvedAs(a, rows, calls + [b], geocoder) == ResolvedAs(a, rows, calls, geocoder)
  {
    var c := calls + [b];
    assert c[..|c| - 1] == calls;
    forall a | a != b ensures ResolvedAs(a, rows, c, geocoder) == ResolvedAs(a, rows, calls, geocoder) {
      assert a in c <==> a in calls;
    }
  }

  /** The table after `calls` as the resolver leaves it: the rows it started
      with are untouched, and a new row exists exactly for an address some
      lookup found, holding the coordinates the first such lookup gave. */
  ghost predicate RowsLinked(initial: map<string, Place>, calls: seq<string>, rows: map<string, Place>,
                             geocoder: (string, nat) -> GeoResponse, now: int)
  {
    (forall a :: a in initial ==> a in rows && rows[a] == initial[a]) &&
    (forall a :: a !in initial ==> (a in rows <==> FirstFound(calls, a, geocoder).Some?)) &&
    (forall a :: a in rows && a !in initial ==> rows[a] == StoredRow(a, FirstFound(calls, a, geocoder).value, now))
  }

  /** The dictionary after the first `i` batch entries. */
  ghost predicate PlacesLinked(initial: map<string, Place>, batch: seq<string>, i: nat, calls: seq<string>,
                               places: map<string, Coords>, rows: map<string, Place>,
                               geocoder: (string, nat) -> GeoResponse)
  {
    i <= |batch| &&
    calls == Misses(batch[..i], initial.Keys) &&
    (forall a :: a in places <==> a in batch[..i]) &&
    (forall a :: a in places ==> places[a] == ResolvedAs(a, initial, calls, geocoder)) &&
    (forall a :: a in places && places[a].Fresh? ==>
       a in rows && rows[a].lon == Some(places[a].lon) && rows[a].lat == Some(places[a].lat))
  }

  /** Before the first entry: no calls, an empty dictionary, an unchanged table. */
  lemma StartFacts(initial: map<string, Place>, batch: seq<string>, rows: map<string, Place>,
                   geocoder: (string, nat) -> GeoResponse, now: int)
    requires rows == initial
    ensures PlacesLinked(initial, batch, 0, [], map[], rows, geocoder)
    ensures RowsLinked(initial, [], rows, geocoder, now)
  {
    assert batch[..0] == [];
  }

  /** A preloaded entry is reported as stored and costs no lookup. */
  lemma PreloadStep(initial: map<string, Place>, batch: seq<string>, i: nat, calls: seq<string>,
                    places: map<string, Coords>, rows: map<string, Place>,
                    geocoder: (string, nat) -> GeoResponse)
    requires PlacesLinked(initial, batch, i, calls, places, rows, geocoder)
    requires i < |batch| && batch[i] in initial
    ensures PlacesLinked(initial, batch, i + 1, calls,
                         places[batch[i] := Cached(initial[batch[i]].lon, initial[batch[i]].lat)], rows, geocoder)
  {
    var places2 := places[batch[i] := Cached(initial[batch[i]].lon, initial[batch[i]].lat)];
    assert batch[..i + 1][..i] == batch[..i];
    EntryKeys(batch, i, places, places2);
    PlacesLinkedIntro(initial, batch, i + 1, calls, places2, rows, geocoder);
  }

  /** What a lookup that does not raise leaves behind: the new dictionary
      entry and, when coordinates were found, a row holding them. */
  ghost predicate LookupRecorded(b: string, rows: map<string, Place>,
                                 places: map<string, Coords>, rows2: map<string, Place>,
                                 places2: map<string, Coords>, answer: Fetched, now: int)
  {
    !answer.Failed? &&
    places2 == places[b := Shape(answer)] &&
    (answer.NotFound? ==> rows2 == rows) &&
    (answer.Found? && b !in rows ==> rows2 == rows[b := Place(b, Some(answer.lon), Some(answer.lat), now)]) &&
    (answer.Found? && b in rows ==>
       rows2 == rows && rows[b].lon == Some(answer.lon) && rows[b].lat == Some(answer.lat))
  }

  /** A lookup that does not raise extends the dictionary by its entry. */
  lemma LookupPlacesStep(initial: map<string, Place>, batch: seq<string>, i: nat, calls: seq<string>,
                         places: map<string, Coords>, rows: map<string, Place>,
                         places2: map<string, Coords>, rows2: map<string, Place>,
                         geocoder: (string, nat) -> GeoResponse, now: int, answer: Fetched)
    requires PlacesLinked(initial, batch, i, calls, places, rows, geocoder)
    requires i < |batch| && batch[i] !in initial
    requires answer == FetchCoordinates(geocoder(batch[i], |calls|))
    requires LookupRecorded(batch[i], rows, places, rows2, places2, answer, now)
    ensures PlacesLinked(initial, batch, i + 1, calls + [batch[i]], places2, rows2, geocoder)
  {
    var b := batch[i];
    MissesThrough(batch, initial.Keys, i);
    EntryKeys(batch, i, places, places2);
    LookupValues(initial, calls, b, places, places2, geocoder, answer);
    LookupFresh(b, places, rows, places2, rows2, answer, now);
    PlacesLinkedIntro(initial, batch, i + 1, calls + [b], places2, rows2, geocoder);
  }

  /** `PlacesLinked` from its parts. */
  lemma PlacesLinkedIntro(initial: map<string, Place>, batch: seq<string>, i: nat, calls: seq<string>,
                          places: map<string, Coords>, rows: map<string, Place>,
                          geocoder: (string, nat) -> GeoResponse)
    requires i <= |batch|
    requires calls == Misses(batch[..i], initial.Keys)
    requires forall a :: a in places <==> a in batch[..i]
    requires forall a :: a in places ==> places[a] == ResolvedAs(a, initial, calls, geocoder)
    requires forall a :: a in places && places[a].Fresh? ==>
               a in rows && rows[a].lon == Some(places[a].lon) && rows[a].lat == Some(places[a].lat)
    ensures PlacesLinked(initial, batch, i, calls, places, rows, geocoder)
  {
  }

  /** Adding entry `i` makes the keys the batch prefix through `i`. */
  lemma EntryKeys(batch: seq<string>, i: nat, places: map<string, Coords>, places2: map<string, Coords>)
    requires i < |batch| && forall a :: a in places <==> a in batch[..i]
    requires places2.Keys == places.Keys + {batch[i]}
    ensures forall a :: a in places2 <==> a in batch[..i + 1]
  {
    assert batch[..i + 1] == batch[..i] + [batch[i]];
  }

  /** The new entry is what its lookup gave; the others resolve as before. */
  lemma LookupValues(initial: map<string, Place>, calls: seq<string>, b: string,
                     places: map<string, Coords>, places2: map<string, Coords>,
                     geocoder: (string, nat) -> GeoResponse, answer: Fetched)
    requires b !in initial
    requires forall a :: a in places ==> places[a] == ResolvedAs(a, initial, calls, geocoder)
    requires answer == FetchCoordinates(geocoder(b, |calls|))
    requires places2 == places[b := Shape(answer)]
    ensures forall a :: a in places2 ==> places2[a] == ResolvedAs(a, initial, calls + [b], geocoder)
  {
    CallAppendedResolved(initial, calls, b, geocoder);
    forall a | a in places2 ensures places2[a] == ResolvedAs(a, initial, calls + [b], geocoder) {
      if a != b { assert places2[a] == places[a]; }
    }
  }

  /** Every entry reported as freshly found has its row in the table. */
  lemma LookupFresh(b: string, places: map<string, Coords>, rows: map<string, Place>,
                    places2: map<string, Coords>, rows2: map<string, Place>, answer: Fetched, now: int)
    requires forall a :: a in places && places[a].Fresh? ==>
               a in rows && rows[a].lon == Some(places[a].lon) && rows[a].lat == Some(places[a].lat)
    requires LookupRecorded(b, rows, places, rows2, places2, answer, now)
    ensures forall a :: a in places2 && places2[a].Fresh? ==>
              a in rows2 && rows2[a].lon == Some(places2[a].lon) && rows2[a].lat == Some(places2[a].lat)
  {
    forall a | a in places2 && places2[a].Fresh?
      ensures a in rows2 && rows2[a].lon == Some(places2[a].lon) && rows2[a].lat == Some(places2[a].lat)
    {
      if a == b {
        assert answer.Found? && places2[a] == Fresh(answer.lon, answer.lat);
      } else {
        assert places2[a] == places[a] && rows2[a] == rows[a];
      }
    }
  }

  /** A lookup that does not raise keeps the table linked to the calls. */
  lemma LookupRowsStep(initial: map<string, Place>, calls: seq<string>, b: string,
                       places: map<string, Coords>, rows: map<string, Place>,
                       places2: map<string, Coords>, rows2: map<string, Place>,
                       geocoder: (string, nat) -> GeoResponse, now: int, answer: Fetched)
    requires RowsLinked(initial, calls, rows, geocoder, now)
    requires b !in initial
    requires answer == FetchCoordinates(geocoder(b, |calls|))
    requires LookupRecorded(b, rows, places, rows2, places2, answer, now)
    ensures RowsLinked(initial, calls + [b], rows2, geocoder, now)
  {
    FirstFoundAppend(calls, b, geocoder);
    if answer.Found? && b in rows {
      assert FirstFound(calls, b, geocoder).value == answer;
    }
  }

  /** The lookups made up to and including entry `i` never reach a cached address. */
  lemma {:induction false} MissesThrough(batch: seq<string>, cached: set<string>, i: nat)
    requires i < |batch| && batch[i] !in cached
    ensures Misses(batch[..i], cached) + [batch[i]] == Misses(batch[..i + 1], cached)
    ensures Misses(batch[..i + 1], cached) <= Misses(batch, cached)
    ensures forall a :: a in cached ==> a !in Misses(batch[..i + 1], cached)
  {
    assert batch[..i + 1][..i] == batch[..i];
    MissesPrefix(batch, cached, i + 1);
    forall a | a in cached ensures a !in Misses(batch[..i + 1], cached) {
      MissesMember(batch[..i + 1], cached, a);
    }
  }

  /** When a lookup raises, or its row clashes with a stored one, the table
      is as the calls so far left it. */
  lemma AbortStep(initial: map<string, Place>, batch: seq<string>, i: nat, calls: seq<string>,
                  places: map<string, Coords>, rows: map<string, Place>,
                  geocoder: (string, nat) -> GeoResponse, now: int)
    requires PlacesLinked(initial, batch, i, calls, places, rows, geocoder)
    requires RowsLinked(initial, calls, rows, geocoder, now)
    requires i < |batch| && batch[i] !in initial
    requires FetchCoordinates(geocoder(batch[i], |calls|)).Failed? ||
             (FetchCoordinates(geocoder(batch[i], |calls|)).Found? && batch[i] in rows)
    ensures RowsLinked(initial, calls + [batch[i]], rows, geocoder, now)
    ensures calls + [batch[i]] <= Misses(batch, initial.Keys)
    ensures forall a :: a in initial ==> a !in calls + [batch[i]]
  {
    FirstFoundAppend(calls, batch[i], geocoder);
    MissesThrough(batch, initial.Keys, i);
  }

  /** After the whole batch, the calls are exactly the misses. */
  lemma FinishFacts(initial: map<string, Place>, batch: seq<string>, calls: seq<string>,
                    places: map<string, Coords>, rows: map<string, Place>,
                    geocoder: (string, nat) -> GeoResponse)
    requires PlacesLinked(initial, batch, |batch|, calls, places, rows, geocoder)
    ensures calls == Misses(batch, initial.Keys)
    ensures forall a :: a in initial ==> a !in calls
    ensures forall a :: a !in initial ==> Count(calls, a) == Count(batch, a)
    ensures forall a :: a in places <==> a in batch
  {
    assert batch[..|batch|] == batch;
    forall a | a in initial ensures a !in calls {
      MissesMember(batch, initial.Keys, a);
    }
    forall a | a !in initial ensures Count(calls, a) == Count(batch, a) {
      MissesCount(batch, initial.Keys, a);
    }
  }

  datatype ResolveFault = GeocoderFailed(address: string) | PlaceClash(address: string)

  /** The returned dictionary, or the exception that escaped. */
  datatype Resolution = Resolved(places: map<string, Coords>) | Aborted(fault: ResolveFault)

  /** The exception the lookup of `b` raises after `calls`: the fetch raises, or
      it finds coordinates other than those the first find of `b` stored, so
      `get_or_create` inserts a second row for the unique address. */
  function FaultOf(calls: seq<string>, b: string, geocoder: (string, nat) -> GeoResponse): Option<ResolveFault> {
    var answer := FetchCoordinates(geocoder(b, |calls|));
    var stored := FirstFound(calls, b, geocoder);
    if answer.Failed? then Some(GeocoderFailed(b))
    else if answer.Found? && stored.Some? && stored.value != answer then Some(PlaceClash(b))
    else None
  }

  /** No lookup among `calls` raises. */
  predicate Clean(calls: seq<string>, geocoder: (string, nat) -> GeoResponse) {
    forall j :: 0 <= j < |calls| ==> FaultOf(calls[..j], calls[j], geocoder).None?
  }

  lemma CleanAppend(calls: seq<string>, b: string, geocoder: (string, nat) -> GeoResponse)
    requires Clean(calls, geocoder) && FaultOf(calls, b, geocoder).None?
    ensures Clean(calls + [b], geocoder)
  {
    var c := calls + [b];
    forall j | 0 <= j < |c| ensures FaultOf(c[..j], c[j], geocoder).None? {
      if j < |calls| {
        assert c[..j] == calls[..j] && c[j] == calls[j];
      } else {
        assert c[..j] == calls;
      }
    }
  }

  /** A raising lookup in a prefix of `calls` makes `calls` unclean. */
  lemma PrefixNotClean(done: seq<string>, calls: seq<string>, geocoder: (string, nat) -> GeoResponse)
    requires done <= calls && done != []
    requires FaultOf(done[..|done| - 1], done[|done| - 1], geocoder).Some?
    ensures !Clean(calls, geocoder)
  {
    var j := |done| - 1;
    assert calls[..j] == done[..j] && calls[j] == done[j];
  }

  /** One batch entry that is not preloaded: look it up and, when found, store
      it with `get_or_create`; a raising lookup or a clashing row is the fault. */
  method LookUp(table: PlaceTable, initial: map<string, Place>, batch: seq<string>, i: nat, calls: seq<string>,
                places: map<string, Coords>, geocoder: (string, nat) -> GeoResponse, now: int)
    returns (places2: map<string, Coords>, fault: Option<ResolveFault>)
    requires table.Valid()
    requires PlacesLinked(initial, batch, i, calls, places, table.rows, geocoder)
    requires RowsLinked(initial, calls, table.rows, geocoder, now)
    requires i < |batch| && batch[i] !in initial
    modifies table
    ensures table.Valid()
    ensures RowsLinked(initial, calls + [batch[i]], table.rows, geocoder, now)
    ensures fault == FaultOf(calls, batch[i], geocoder)
    ensures fault.None? ==> PlacesLinked(initial, batch, i + 1, calls + [batch[i]], places2, table.rows, geocoder)
    ensures fault.Some? ==> calls + [batch[i]] <= Misses(batch, initial.Keys)
    ensures fault.Some? ==> forall a :: a in initial ==> a !in calls + [batch[i]]
  {
    var place := batch[i];
    var answer := FetchCoordinates(geocoder(place, |calls|));
    if answer.Failed? {
      AbortStep(initial, batch, i, calls, places, table.rows, geocoder, now);
      return places, Some(GeocoderFailed(place));
    }
    ghost var rowsBefore := table.rows;
    places2 := places[place := Shape(answer)];
    if answer.Found? {
      var saved := table.GetOrCreate(place, answer.lon, answer.lat, now);
      assert place in rowsBefore ==> FirstFound(calls, place, geocoder).Some? &&
                                     rowsBefore[place] == StoredRow(place, FirstFound(calls, place, geocoder).value, now);
      if saved == Clash {
        AbortStep(initial, batch, i, calls, places, table.rows, geocoder, now);
        return places, Some(PlaceClash(place));
      }
    }
    assert LookupRecorded(place, rowsBefore, places, table.rows, places2, answer, now);
    LookupPlacesStep(initial, batch, i, calls, places, rowsBefore, places2, table.rows, geocoder, now, answer);
    LookupRowsStep(initial, calls, place, places, rowsBefore, places2, table.rows, geocoder, now, answer);
    fault := None;
  }

  /** One pass of the resolver's loop: a preloaded entry is copied from the
      preload dictionary, any other is looked up. */
  method ResolveEntry(table: PlaceTable, initial: map<string, Place>, preload: map<string, Coords>,
                      batch: seq<string>, i: nat, calls: seq<string>, places: map<string, Coords>,
                      geocoder: (string, nat) -> GeoResponse, now: int)
    returns (places2: map<string, Coords>, calls2: seq<string>, fault: Option<ResolveFault>)
    requires table.Valid()
    requires PlacesLinked(initial, batch, i, calls, places, table.rows, geocoder)
    requires RowsLinked(initial, calls, table.rows, geocoder, now)
    requires i < |batch|
    requires forall a :: a in preload <==> a in initial && a in batch
    requires forall a :: a in preload ==> preload[a] == Cached(initial[a].lon, initial[a].lat)
    modifies table
    ensures table.Valid()
    ensures RowsLinked(initial, calls2, table.rows, geocoder, now)
    ensures batch[i] in initial ==> calls2 == calls && fault.None?
    ensures batch[i] !in initial ==> calls2 == calls + [batch[i]] && fault == FaultOf(calls, batch[i], geocoder)
    ensures fault.None? ==> PlacesLinked(initial, batch, i + 1, calls2, places2, table.rows, geocoder)
    ensures fault.Some? ==> calls2 <= Misses(batch, initial.Keys)
    ensures fault.Some? ==> forall a :: a in initial ==> a !in calls2
  {
    var place := batch[i];
    if place in preload {
      var cached := preload[place];
      assert cached == Cached(initial[place].lon, initial[place].lat);
      PreloadStep(initial, batch, i, calls, places, table.rows, geocoder);
      places2, calls2, fault := places[place := cached], calls, None;
    } else {
      places2, fault := LookUp(table, initial, batch, i, calls, places, geocoder, now);
      calls2 := calls + [place];
    }
  }

  /** `get_serialized_places_and_coordinates(batch)`: preload the rows whose
      address is in the batch; look up every other entry (each occurrence), store
      what is found with `get_or_create`, and report every address. */
  method Resolve(table: PlaceTable, batch: seq<string>, geocoder: (string, nat) -> GeoResponse, now: int)
    returns (outcome: Resolution, calls: seq<string>)
    requires table.Valid()
    modifies table
    ensures table.Valid()
    ensures calls <= Misses(batch, old(table.rows).Keys)
    ensures forall a :: a in old(table.rows) ==> a !in calls
    ensures outcome.Resolved? ==> calls == Misses(batch, old(table.rows).Keys)
    ensures outcome.Resolved? ==> forall a :: a !in old(table.rows) ==> Count(calls, a) == Count(batch, a)
    ensures outcome.Resolved? ==> forall a :: a in outcome.places <==> a in batch
    ensures outcome.Resolved? ==>
              forall a :: a in outcome.places ==> outcome.places[a] == ResolvedAs(a, old(table.rows), calls, geocoder)
    ensures outcome.Resolved? ==>
              forall a :: a in outcome.places && outcome.places[a].Fresh? ==>
                a in table.rows && table.rows[a].lon == Some(outcome.places[a].lon) &&
                table.rows[a].lat == Some(outcome.places[a].lat)
    ensures outcome.Resolved? <==> Clean(Misses(batch, old(table.rows).Keys), geocoder)
    ensures outcome.Aborted? ==>
              calls != [] && Clean(calls[..|calls| - 1], geocoder) &&
              FaultOf(calls[..|calls| - 1], calls[|calls| - 1], geocoder) == Some(outcome.fault)
    ensures RowsLinked(old(table.rows), calls, table.rows, geocoder, now)
  {
    var initial := table.rows;
    var preload := map a | a in initial && a in batch :: Cached(initial[a].lon, initial[a].lat);
    assert forall a :: a in preload <==> a in initial && a in batch;
    var places: map<string, Coords> := map[];
    calls := [];
    var i := 0;
    StartFacts(initial, batch, table.rows, geocoder, now);
    while i < |batch|
      invariant table.Valid()
      invariant PlacesLinked(initial, batch, i, calls, places, table.rows, geocoder)
      invariant RowsLinked(initial, calls, table.rows, geocoder, now)
      invariant Clean(calls, geocoder)
    {
      var fault;
      ghost var before := calls;
      places, calls, fault := ResolveEntry(table, initial, preload, batch, i, calls, places, geocoder, now);
      if fault.Some? {
        assert calls[..|calls| - 1] == before;
        PrefixNotClean(calls, Misses(batch, initial.Keys), geocoder);
        outcome := Aborted(fault.value);
        return;
      }
      if batch[i] !in initial {
        CleanAppend(before, batch[i], geocoder);
      }
      i := i + 1;
    }
    FinishFacts(initial, batch, calls, places, table.rows, geocoder);
    outcome := Resolved(places);
  }
}
