/** The Room record, `Room.__post_init__` and `DataLoader.load_rooms`:
    decoding room records with per-field defaults, then Python's stable
    `sorted` by lower-cased room name. */
module Rooms {
  import opened Wrappers
  import opened Values
  import opened Text

  /** A room. `building`, `lat` and `lon` keep whatever JSON value the record
      held, as the dataclass does; the name is always a string (any other
      name makes loading raise, see DecodeRoom). */
  datatype Room = Room(name: string, building: Json, floor: string, lat: Json, lon: Json)

  /** `Room.__post_init__`: a `None` floor becomes `""`, any other floor
      becomes `str(floor)`. */
  function NormalizeFloor(floor: Json, repr: Json -> string): (f: string)
    ensures floor == JNull ==> f == ""
    ensures floor.JStr? ==> f == floor.s
    ensures floor != JNull ==> f == Str(floor, repr)
  {
    if floor == JNull then "" else Str(floor, repr)
  }

  /** One record of the rooms file. `room_data.get` raises AttributeError
      unless the record is an object; a `room_name` that is present but not a
      string makes the sort key's `.lower()` raise AttributeError. */
  function DecodeRoom(rec: Json, repr: Json -> string): (r: Result<Room, Exception>)
    ensures r.Err? ==> r.error == AttributeError
    ensures r.Ok? <==> rec.JObj? && Get(rec.fields, "room_name", JStr("")).JStr?
    ensures rec.JObj? && "room_name" !in rec.fields ==> r.Ok? && r.value.name == ""
    ensures r.Ok? ==> "building" !in rec.fields ==> r.value.building == JStr("")
    ensures r.Ok? ==> "floor" !in rec.fields ==> r.value.floor == ""
    ensures r.Ok? ==> "lat" !in rec.fields ==> r.value.lat == JNull
    ensures r.Ok? ==> "lon" !in rec.fields ==> r.value.lon == JNull
    ensures r.Ok? && "room_name" in rec.fields ==> rec.fields["room_name"] == JStr(r.value.name)
    ensures r.Ok? && "building" in rec.fields ==> r.value.building == rec.fields["building"]
    ensures r.Ok? && "floor" in rec.fields ==> r.value.floor == NormalizeFloor(rec.fields["floor"], repr)
    ensures r.Ok? && "lat" in rec.fields ==> r.value.lat == rec.fields["lat"]
    ensures r.Ok? && "lon" in rec.fields ==> r.value.lon == rec.fields["lon"]
  {
    if !rec.JObj? then Err(AttributeError)
    else
      var name := Get(rec.fields, "room_name", JStr(""));
      if !name.JStr? then Err(AttributeError)
      else
        Ok(Room(name.s,
                Get(rec.fields, "building", JStr("")),
                NormalizeFloor(Get(rec.fields, "floor", JNull), repr),
                Get(rec.fields, "lat", JNull),
                Get(rec.fields, "lon", JNull)))
  }

  /** What `for room_data in rooms_data` iterates over. `None` stands for a
      missing or undecodable file, which the source catches (returning `[]`).
      Iterating an object or a string yields strings, whose missing `.get`
      raises AttributeError; numbers, booleans and null are not iterable. */
  function Records(doc: Option<Json>): (r: Result<seq<Json>, Exception>)
    ensures doc == None ==> r == Ok([])
    ensures r.Ok? && r.value != [] ==> doc.Some? && doc.value.JArr?
    ensures doc.Some? && doc.value.JArr? ==> r == Ok(doc.value.items)
    ensures doc.Some? && (doc.value.JObj? || doc.value.JStr?) ==>
      (r == Ok([]) <==> !Truthy(doc.value)) && (r.Err? ==> r.error == AttributeError)
    ensures doc.Some? && !(doc.value.JArr? || doc.value.JObj? || doc.value.JStr?) ==> r == Err(TypeError)
  {
    match doc
    case None => Ok([])
    case Some(JArr(items)) => Ok(items)
    case Some(JObj(m)) => if |m| == 0 then Ok([]) else Err(AttributeError)
    case Some(JStr(s)) => if s == "" then Ok([]) else Err(AttributeError)
    case Some(_) => Err(TypeError)
  }

  /** Every record decoded, in file order, or the exception one of them raises. */
  function DecodeAll(recs: seq<Json>, repr: Json -> string): (r: Result<seq<Room>, Exception>)
    ensures r.Ok? <==> forall k :: 0 <= k < |recs| ==> DecodeRoom(recs[k], repr).Ok?
    ensures r.Err? ==> r.error == AttributeError
    ensures r.Ok? ==> (|r.value| == |recs| &&
      forall k :: 0 <= k < |recs| ==> r.value[k] == DecodeRoom(recs[k], repr).value)
  {
    if recs == [] then Ok([])
    else
      var init := DecodeAll(recs[..|recs| - 1], repr);
      var last := DecodeRoom(recs[|recs| - 1], repr);
      assert forall k :: 0 <= k < |recs| - 1 ==> recs[..|recs| - 1][k] == recs[k];
      if init.Err? then init
      else if last.Err? then last.PropagateTo()
      else Ok(init.value + [last.value])
  }

  /** The sort key `x.room_name.lower()`. */
  function Key(r: Room): string
  {
    Lower(r.name)
  }

  /** Adjacent rooms are in order of their keys. */
  predicate SortedByName(s: seq<Room>)
  {
    forall k :: 0 <= k < |s| - 1 ==> LexLe(Key(s[k]), Key(s[k + 1]))
  }

  /** The rooms of `s` whose key is `key`, in their order in `s`. A sort is
      stable exactly when it leaves each of these subsequences unchanged. */
  function WithKey(s: seq<Room>, key: string): seq<Room>
  {
    if s == [] then []
    else (if Key(s[0]) == key then [s[0]] else []) + WithKey(s[1..], key)
  }

  /** `r` is `s` with `x` placed at position `i`, after every room whose key
      is strictly below its own and before the first one that is not. */
  predicate InsertedAt(x: Room, s: seq<Room>, i: int, r: seq<Room>)
  {
    0 <= i <= |s| && r == s[..i] + [x] + s[i..] &&
    (forall k :: 0 <= k < i ==> !LexLe(Key(x), Key(s[k]))) &&
    (i < |s| ==> LexLe(Key(x), Key(s[i])))
  }

  /** Inserts `x` before the first room whose key is not below its own. */
  function Insert(x: Room, s: seq<Room>): (r: seq<Room>)
    ensures multiset(r) == multiset(s) + multiset{x}
  {
    if s == [] || LexLe(Key(x), Key(s[0])) then [x] + s
    else
      assert s == [s[0]] + s[1..];
      [s[0]] + Insert(x, s[1..])
  }

  /** Where the room lands: after every room whose key is strictly below its
      own, before the first one that is not, everything else in place. */
  lemma {:induction false} InsertPosition(x: Room, s: seq<Room>)
    ensures exists i :: InsertedAt(x, s, i, Insert(x, s))
  {
    if s == [] || LexLe(Key(x), Key(s[0])) {
      assert InsertedAt(x, s, 0, Insert(x, s));
    } else {
      InsertPosition(x, s[1..]);
      var i :| InsertedAt(x, s[1..], i, Insert(x, s[1..]));
      InsertedLater(x, s, i, Insert(x, s[1..]));
      assert Insert(x, s) == [s[0]] + Insert(x, s[1..]);
      assert InsertedAt(x, s, i + 1, Insert(x, s));
    }
  }

  lemma InsertedLater(x: Room, s: seq<Room>, i: int, t: seq<Room>)
    requires s != [] && !LexLe(Key(x), Key(s[0]))
    requires InsertedAt(x, s[1..], i, t)
    ensures InsertedAt(x, s, i + 1, [s[0]] + t)
  {
    assert s[..i + 1] == [s[0]] + s[1..][..i];
    assert s[i + 1..] == s[1..][i..];
  }

  /** Python's `sorted(rooms, key=lambda x: x.room_name.lower())`, written
      as an insertion sort: a permutation of its input, in ascending order of
      lower-cased names. */
  function SortByName(s: seq<Room>): (r: seq<Room>)
    ensures multiset(r) == multiset(s)
    ensures |r| == |s|
    ensures SortedByName(r)
  {
    if s == [] then []
    else
      var t := SortByName(s[1..]);
      var r := Insert(s[0], t);
      assert multiset(r) == multiset(s) by {
        assert s == [s[0]] + s[1..];
      }
      assert |r| == |s| by {
        assert |multiset(r)| == |multiset(s)|;
      }
      InsertSorted(s[0], t);
      r
  }

  lemma {:induction false} InsertSorted(x: Room, s: seq<Room>)
    requires SortedByName(s)
    ensures SortedByName(Insert(x, s))
  {
    if s != [] && !LexLe(Key(x), Key(s[0])) {
      InsertSorted(x, s[1..]);
      LexLeTotal(Key(x), Key(s[0]));
      var t := Insert(x, s[1..]);
      assert t == [x] + s[1..] || (|s| > 1 && t[0] == s[1]);
    }
  }

  lemma {:induction false} InsertWithKey(x: Room, s: seq<Room>, key: string)
    ensures WithKey(Insert(x, s), key) ==
      (if Key(x) == key then [x] + WithKey(s, key) else WithKey(s, key))
  {
    if s == [] || LexLe(Key(x), Key(s[0])) {
      assert ([x] + s)[1..] == s;
    } else {
      InsertWithKey(x, s[1..], key);
      assert ([s[0]] + Insert(x, s[1..]))[1..] == Insert(x, s[1..]);
      if Key(s[0]) == key && Key(x) == key {
        LexLeReflexive(key);
      }
    }
  }

  /** The sort is stable: rooms whose lower-cased names tie keep their
      original relative order. */
  lemma {:induction false} SortStable(s: seq<Room>, key: string)
    ensures WithKey(SortByName(s), key) == WithKey(s, key)
  {
    if s != [] {
      SortStable(s[1..], key);
      InsertWithKey(s[0], SortByName(s[1..]), key);
    }
  }

  /** Sorted in the adjacent sense is sorted in the pairwise sense. */
  lemma {:induction false} SortedPairwise(s: seq<Room>, i: nat, j: nat)
    requires SortedByName(s)
    requires i <= j < |s|
    ensures LexLe(Key(s[i]), Key(s[j]))
    decreases j - i
  {
    if i == j {
      LexLeReflexive(Key(s[i]));
    } else {
      SortedPairwise(s, i + 1, j);
      LexLeTransitive(Key(s[i]), Key(s[i + 1]), Key(s[j]));
    }
  }

  lemma {:induction false} InWithKey(s: seq<Room>, k: nat)
    requires k < |s|
    ensures s[k] in WithKey(s, Key(s[k]))
  {
    if k > 0 {
      InWithKey(s[1..], k - 1);
    }
  }

  lemma {:induction false} WithKeyMembers(s: seq<Room>, key: string, x: Room)
    requires x in WithKey(s, key)
    ensures x in s && Key(x) == key
  {
    if s != [] && !(Key(s[0]) == key && x == s[0]) {
      WithKeyMembers(s[1..], key, x);
    }
  }

  /** The first key of a sorted arrangement is not above the key of any
      room it holds, in particular of the first room of the other. */
  lemma FirstKeyNotAbove(a: seq<Room>, b: seq<Room>)
    requires a != [] && b != [] && SortedByName(b)
    requires forall key :: WithKey(a, key) == WithKey(b, key)
    ensures LexLe(Key(b[0]), Key(a[0]))
  {
    InWithKey(a, 0);
    assert a[0] in WithKey(b, Key(a[0]));
    WithKeyMembers(b, Key(a[0]), a[0]);
    var kb :| 0 <= kb < |b| && b[kb] == a[0];
    SortedPairwise(b, 0, kb);
  }

  /** Two sorted arrangements with the same rooms per key start alike. */
  lemma SameHead(a: seq<Room>, b: seq<Room>)
    requires a != [] && b != []
    requires SortedByName(a) && SortedByName(b)
    requires forall key :: WithKey(a, key) == WithKey(b, key)
    ensures a[0] == b[0]
  {
    FirstKeyNotAbove(a, b);
    FirstKeyNotAbove(b, a);
    LexLeAntisymmetric(Key(a[0]), Key(b[0]));
    assert WithKey(a, Key(a[0]))[0] == a[0];
    assert WithKey(b, Key(a[0]))[0] == b[0];
  }

  /** Dropping the same first room keeps the rooms per key equal. */
  lemma SameTails(a: seq<Room>, b: seq<Room>)
    requires a != [] && b != [] && a[0] == b[0]
    requires forall key :: WithKey(a, key) == WithKey(b, key)
    ensures forall key :: WithKey(a[1..], key) == WithKey(b[1..], key)
  {
    forall key
      ensures WithKey(a[1..], key) == WithKey(b[1..], key)
    {
      var head := if Key(a[0]) == key then [a[0]] else [];
      assert WithKey(a, key) == head + WithKey(a[1..], key);
      assert WithKey(b, key) == head + WithKey(b[1..], key);
      assert WithKey(a[1..], key) == WithKey(a, key)[|head|..];
      assert WithKey(b[1..], key) == WithKey(b, key)[|head|..];
    }
  }

  lemma SortedTail(s: seq<Room>)
    requires s != [] && SortedByName(s)
    ensures SortedByName(s[1..])
  {
    forall k | 0 <= k < |s[1..]| - 1 ensures LexLe(Key(s[1..][k]), Key(s[1..][k + 1])) {
      assert s[1..][k] == s[k + 1] && s[1..][k + 1] == s[k + 2];
    }
  }

  /** Sortedness and stability together fix the order completely: any two
      sorted arrangements with the same rooms per key are equal. So
      SortByName is Python's stable `sorted`, whatever algorithm that uses. */
  lemma {:induction false} StableSortUnique(a: seq<Room>, b: seq<Room>)
    requires SortedByName(a) && SortedByName(b)
    requires forall key :: WithKey(a, key) == WithKey(b, key)
    ensures a == b
    decreases |a| + |b|
  {
    if a == [] && b == [] {
      return;
    }
    if a == [] {
      InWithKey(b, 0);
      assert false;
    }
    if b == [] {
      InWithKey(a, 0);
      assert false;
    }
    SameHead(a, b);
    SameTails(a, b);
    SortedTail(a);
    SortedTail(b);
    StableSortUnique(a[1..], b[1..]);
    assert a == [a[0]] + a[1..] && b == [b[0]] + b[1..];
  }

  /** The rooms `load_rooms` builds before sorting, or what it raises. */
  function DecodedRooms(doc: Option<Json>, repr: Json -> string): Result<seq<Room>, Exception>
  {
    match Records(doc)
    case Err(e) => Err(e)
    case Ok(recs) => DecodeAll(recs, repr)
  }

  /** `load_rooms` from the decoded document on: one Room per record, then
      the stable sort by lower-cased name. */
  method LoadRooms(doc: Option<Json>, repr: Json -> string) returns (r: Result<seq<Room>, Exception>)
    ensures r.Err? <==> DecodedRooms(doc, repr).Err?
    ensures r.Err? ==> r.error == DecodedRooms(doc, repr).error
    ensures r.Ok? ==>
      var built := DecodedRooms(doc, repr).value;
      r.value == SortByName(built) &&
      SortedByName(r.value) &&
      multiset(r.value) == multiset(built) &&
      forall key :: WithKey(r.value, key) == WithKey(built, key)
  {
    var recs;
    match Records(doc) {
      case Err(e) => return Err(e);
      case Ok(rs) => recs := rs;
    }
    var rooms: seq<Room> := [];
    for k := 0 to |recs|
      invariant DecodeAll(recs[..k], repr).Ok?
      invariant rooms == DecodeAll(recs[..k], repr).value
    {
      var room := DecodeRoom(recs[k], repr);
      if room.Err? {
        return Err(room.error);
      }
      assert recs[..k + 1][..k] == recs[..k];
      rooms := rooms + [room.value];
    }
    assert recs[..|recs|] == recs;
    forall key
      ensures WithKey(SortByName(rooms), key) == WithKey(rooms, key)
    {
      SortStable(rooms, key);
    }
    return Ok(SortByName(rooms));
  }
}
