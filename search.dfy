/** RoomSearchEngine: `search` (substring matches united with fuzzy matches,
    one room per name, sorted by lower-cased name) and
    `get_fuzzy_suggestions`. The engine's room list never changes after
    construction, so it is a parameter here. */
module Search {
  import opened Text
  import opened Rooms

  /** rapidfuzz's `process.extract(query, choices, limit, score_cutoff)`,
      reduced to the matched names, best first. Its scoring is not modelled. */
  type Extractor = (string, seq<string>, int, int) -> seq<string>

  /** `self.room_names`. */
  function Names(rooms: seq<Room>): (r: seq<string>)
    ensures |r| == |rooms| && forall k :: 0 <= k < |rooms| ==> r[k] == rooms[k].name
  {
    seq(|rooms|, k requires 0 <= k < |rooms| => rooms[k].name)
  }

  predicate NamesDistinct(s: seq<Room>)
  {
    forall i, j :: 0 <= i < j < |s| ==> s[i].name != s[j].name
  }

  /** `[room for room in self.rooms if query_lower in room.room_name.lower()]`. */
  function SubstringMatches(rooms: seq<Room>, queryLower: string): (r: seq<Room>)
    ensures forall x :: x in r <==> x in rooms && Contains(Lower(x.name), queryLower)
  {
    if rooms == [] then []
    else
      (if Contains(Lower(rooms[0].name), queryLower) then [rooms[0]] else []) +
      SubstringMatches(rooms[1..], queryLower)
  }

  /** `[room for room in self.rooms if room.room_name in fuzzy_names]`. */
  function RoomsNamed(rooms: seq<Room>, names: set<string>): (r: seq<Room>)
    ensures forall x :: x in r <==> x in rooms && x.name in names
  {
    if rooms == [] then []
    else (if rooms[0].name in names then [rooms[0]] else []) + RoomsNamed(rooms[1..], names)
  }

  /** The position of the entry named `name`, or -1. */
  function FindName(entries: seq<Room>, name: string): (k: int)
    ensures -1 <= k < |entries|
    ensures k >= 0 ==> entries[k].name == name
    ensures k == -1 <==> forall j :: 0 <= j < |entries| ==> entries[j].name != name
  {
    if entries == [] then -1
    else if entries[|entries| - 1].name == name then |entries| - 1
    else FindName(entries[..|entries| - 1], name)
  }

  /** `d[room.room_name] = room` on an insertion-ordered dict: an existing
      key keeps its place and takes the new value, a new key goes last. */
  function Put(entries: seq<Room>, room: Room): (r: seq<Room>)
    ensures room in r
    ensures (forall j :: 0 <= j < |entries| ==> entries[j].name != room.name) <==> r == entries + [room]
    ensures |r| == |entries| || r == entries + [room]
    ensures forall j :: 0 <= j < |entries| ==>
      r[j] == entries[j] || (r[j] == room && entries[j].name == room.name)
  {
    var k := FindName(entries, room.name);
    if k < 0 then
      assert (entries + [room])[|entries|] == room;
      entries + [room]
    else
      assert |entries[k := room]| != |entries + [room]|;
      assert entries[k := room][k] == room;
      entries[k := room]
  }

  /** `{room.room_name: room for room in rooms}.values()`: at most one entry
      per room, and the last room always among them. */
  function ByName(rooms: seq<Room>): (r: seq<Room>)
    ensures |r| <= |rooms|
    ensures rooms != [] ==> rooms[|rooms| - 1] in r
  {
    if rooms == [] then [] else Put(ByName(rooms[..|rooms| - 1]), rooms[|rooms| - 1])
  }

  /** The names of `names` in order of first occurrence, each once. */
  function FirstOccurrences(names: seq<string>): seq<string>
  {
    if names == [] then []
    else
      var u := FirstOccurrences(names[..|names| - 1]);
      if names[|names| - 1] in u then u else u + [names[|names| - 1]]
  }

  lemma FindNameFound(entries: seq<Room>, name: string)
    ensures FindName(entries, name) >= 0 <==> name in Names(entries)
  {
    if name in Names(entries) {
      var k :| 0 <= k < |entries| && Names(entries)[k] == name;
      assert entries[k].name == name;
    }
  }

  /** One dict assignment: the keys grow by the new name when it is new; the
      other entries stay; the assigned name now holds `room`. */
  lemma PutFacts(entries: seq<Room>, room: Room)
    requires NamesDistinct(entries)
    ensures Names(Put(entries, room)) ==
      if room.name in Names(entries) then Names(entries) else Names(entries) + [room.name]
    ensures NamesDistinct(Put(entries, room))
    ensures forall x :: x in Put(entries, room) ==> x == room || (x in entries && x.name != room.name)
  {
    FindNameFound(entries, room.name);
    var k := FindName(entries, room.name);
    var p := Put(entries, room);
    if k >= 0 {
      assert Names(p) == Names(entries);
      forall x | x in p ensures x == room || (x in entries && x.name != room.name) {
        var i :| 0 <= i < |p| && p[i] == x;
        if i != k {
          assert x == entries[i];
        }
      }
    } else {
      assert Names(p) == Names(entries) + [room.name];
    }
  }

  /** The dict holds one entry per name. */
  lemma {:induction false} ByNameDistinct(rooms: seq<Room>)
    ensures NamesDistinct(ByName(rooms))
  {
    if rooms != [] {
      ByNameDistinct(rooms[..|rooms| - 1]);
      PutFacts(ByName(rooms[..|rooms| - 1]), rooms[|rooms| - 1]);
    }
  }

  /** The dict's keys are the input's names in order of first occurrence. */
  lemma {:induction false} ByNameKeys(rooms: seq<Room>)
    ensures Names(ByName(rooms)) == FirstOccurrences(Names(rooms))
  {
    if rooms != [] {
      var init := rooms[..|rooms| - 1];
      ByNameKeys(init);
      ByNameDistinct(init);
      PutFacts(ByName(init), rooms[|rooms| - 1]);
      assert Names(rooms)[..|rooms| - 1] == Names(init);
    }
  }

  /** No room after position `i` carries the name of `rooms[i]`. */
  predicate LastOfItsName(rooms: seq<Room>, i: int)
    requires 0 <= i < |rooms|
  {
    forall j :: i < j < |rooms| ==> rooms[j].name != rooms[i].name
  }

  /** `x` is the last room of `rooms` with its name. */
  predicate LastWinner(rooms: seq<Room>, x: Room)
  {
    exists i :: 0 <= i < |rooms| && rooms[i] == x && LastOfItsName(rooms, i)
  }

  lemma LastWinnerExtend(init: seq<Room>, last: Room, x: Room)
    requires LastWinner(init, x) && x.name != last.name
    ensures LastWinner(init + [last], x)
  {
    var rooms := init + [last];
    var i :| 0 <= i < |init| && init[i] == x && LastOfItsName(init, i);
    assert rooms[i] == x;
    forall j | i < j < |rooms| ensures rooms[j].name != x.name {
      if j < |init| {
        assert rooms[j] == init[j];
      }
    }
    assert LastOfItsName(rooms, i);
  }

  lemma LastWinnerAtEnd(init: seq<Room>, last: Room)
    ensures LastWinner(init + [last], last)
  {
    var rooms := init + [last];
    assert rooms[|rooms| - 1] == last;
    assert LastOfItsName(rooms, |rooms| - 1);
  }

  /** Last value wins: each entry is the last room of the input with its
      name. */
  lemma {:induction false} ByNameLastWins(rooms: seq<Room>)
    ensures forall x :: x in ByName(rooms) ==> LastWinner(rooms, x)
  {
    if rooms != [] {
      var init, last := rooms[..|rooms| - 1], rooms[|rooms| - 1];
      assert rooms == init + [last];
      ByNameLastWins(init);
      ByNameDistinct(init);
      PutFacts(ByName(init), last);
      forall x | x in ByName(rooms) ensures LastWinner(rooms, x) {
        if x == last {
          LastWinnerAtEnd(init, last);
        } else {
          LastWinnerExtend(init, last, x);
        }
      }
    }
  }

  /** The dict's entries are rooms of the input. */
  lemma {:induction false} ByNameMembers(rooms: seq<Room>)
    ensures forall x :: x in ByName(rooms) ==> x in rooms
  {
    ByNameLastWins(rooms);
  }

  lemma SortKeepsMembers(s: seq<Room>)
    ensures forall x :: x in SortByName(s) <==> x in s
  {
    assert forall x :: x in SortByName(s) <==> x in multiset(SortByName(s));
  }

  lemma ConsDistinct(a: Room, t: seq<Room>)
    requires NamesDistinct(t)
    requires forall y :: y in t ==> y.name != a.name
    ensures NamesDistinct([a] + t)
  {
    forall i, j | 0 <= i < j < |[a] + t| ensures ([a] + t)[i].name != ([a] + t)[j].name {
      if i == 0 {
        assert t[j - 1] in t;
      }
    }
  }

  lemma {:induction false} InsertDistinct(x: Room, s: seq<Room>)
    requires NamesDistinct(s)
    requires forall y :: y in s ==> y.name != x.name
    ensures NamesDistinct(Insert(x, s))
  {
    if s == [] || LexLe(Key(x), Key(s[0])) {
      ConsDistinct(x, s);
    } else {
      InsertDistinct(x, s[1..]);
      var t := Insert(x, s[1..]);
      forall y | y in t ensures y.name != s[0].name {
        assert y in multiset(t);
        if y != x {
          assert y in multiset(s[1..]);
          var j :| 0 <= j < |s[1..]| && s[1..][j] == y;
          assert s[j + 1] == y;
        } else {
          assert s[0] in s;
        }
      }
      ConsDistinct(s[0], t);
    }
  }

  /** Sorting keeps names distinct. */
  lemma {:induction false} SortDistinct(s: seq<Room>)
    requires NamesDistinct(s)
    ensures NamesDistinct(SortByName(s))
  {
    if s != [] {
      assert NamesDistinct(s[1..]) by {
        forall i, j | 0 <= i < j < |s[1..]| ensures s[1..][i].name != s[1..][j].name {
          assert s[1..][i] == s[i + 1] && s[1..][j] == s[j + 1];
        }
      }
      SortDistinct(s[1..]);
      SortKeepsMembers(s[1..]);
      forall y | y in SortByName(s[1..]) ensures y.name != s[0].name {
        var j :| 0 <= j < |s[1..]| && s[1..][j] == y;
        assert s[j + 1] == y;
      }
      InsertDistinct(s[0], SortByName(s[1..]));
    }
  }

  lemma NameOfMember(s: seq<Room>, n: string)
    ensures n in Names(s) <==> exists x :: x in s && x.name == n
  {
    if n in Names(s) {
      var k :| 0 <= k < |s| && Names(s)[k] == n;
      assert s[k] in s;
    }
    if exists x :: x in s && x.name == n {
      var x :| x in s && x.name == n;
      var k :| 0 <= k < |s| && s[k] == x;
      assert Names(s)[k] == n;
    }
  }

  lemma {:induction false} FirstOccurrencesMembers(names: seq<string>, n: string)
    ensures n in FirstOccurrences(names) <==> n in names
  {
    if names != [] {
      var init := names[..|names| - 1];
      FirstOccurrencesMembers(init, n);
      assert names == init + [names[|names| - 1]];
    }
  }

  /** The set of names `process.extract` returns (`fuzzy_names`). */
  function FuzzyNames(rooms: seq<Room>, query: string, limit: int, threshold: int, extract: Extractor): set<string>
  {
    set n | n in extract(query, Names(rooms), limit, threshold)
  }

  /** The union before deduplication: substring matches, then fuzzy rooms. */
  function Candidates(rooms: seq<Room>, query: string, limit: int, threshold: int, extract: Extractor): seq<Room>
  {
    SubstringMatches(rooms, Lower(query)) + RoomsNamed(rooms, FuzzyNames(rooms, query, limit, threshold, extract))
  }

  /** `RoomSearchEngine.search`. */
  function Search(rooms: seq<Room>, query: string, limit: int, threshold: int, extract: Extractor): (r: seq<Room>)
    ensures query == "" ==> r == rooms
  {
    if query == "" then rooms
    else SortByName(ByName(Candidates(rooms, query, limit, threshold, extract)))
  }

  /** A non-empty query returns each room name at most once, in order of
      lower-cased name. */
  lemma SearchDistinctSorted(rooms: seq<Room>, query: string, limit: int, threshold: int, extract: Extractor)
    requires query != ""
    ensures NamesDistinct(Search(rooms, query, limit, threshold, extract))
    ensures SortedByName(Search(rooms, query, limit, threshold, extract))
  {
    var c := Candidates(rooms, query, limit, threshold, extract);
    ByNameDistinct(c);
    SortDistinct(ByName(c));
  }

  /** A room is wanted when its lower-cased name contains the lower-cased
      query or its name is among the fuzzy matches. */
  predicate Wanted(rooms: seq<Room>, query: string, limit: int, threshold: int, extract: Extractor, room: Room)
  {
    Contains(Lower(room.name), Lower(query)) || room.name in extract(query, Names(rooms), limit, threshold)
  }

  /** A non-empty query returns only rooms of the list. */
  lemma SearchFromRooms(rooms: seq<Room>, query: string, limit: int, threshold: int, extract: Extractor)
    requires query != ""
    ensures forall x :: x in Search(rooms, query, limit, threshold, extract) ==>
      x in rooms && Wanted(rooms, query, limit, threshold, extract, x)
  {
    var c := Candidates(rooms, query, limit, threshold, extract);
    ByNameMembers(c);
    SortKeepsMembers(ByName(c));
  }

  /** A non-empty query returns a room named `n` exactly when some wanted
      room of the list is named `n`. */
  lemma SearchNames(rooms: seq<Room>, query: string, limit: int, threshold: int, extract: Extractor, n: string)
    requires query != ""
    ensures n in Names(Search(rooms, query, limit, threshold, extract)) <==>
      exists room :: room in rooms && room.name == n && Wanted(rooms, query, limit, threshold, extract, room)
  {
    var c := Candidates(rooms, query, limit, threshold, extract);
    var r := Search(rooms, query, limit, threshold, extract);
    SortKeepsMembers(ByName(c));
    NameOfMember(r, n);
    NameOfMember(ByName(c), n);
    ByNameKeys(c);
    FirstOccurrencesMembers(Names(c), n);
    NameOfMember(c, n);
    assert forall x :: x in c <==> x in rooms && Wanted(rooms, query, limit, threshold, extract, x);
  }

  /** Every room whose lower-cased name contains the lower-cased query is
      found by name, whatever the fuzzy matcher returns. */
  lemma SearchFindsSubstrings(rooms: seq<Room>, query: string, limit: int, threshold: int, extract: Extractor)
    requires query != ""
    ensures forall room :: room in rooms && Contains(Lower(room.name), Lower(query)) ==>
      room.name in Names(Search(rooms, query, limit, threshold, extract))
  {
    forall room | room in rooms && Contains(Lower(room.name), Lower(query))
      ensures room.name in Names(Search(rooms, query, limit, threshold, extract))
    {
      SearchNames(rooms, query, limit, threshold, extract, room.name);
    }
  }

  /** A haystack without the needle's first character cannot contain it. */
  lemma {:induction false} MissingFirstChar(hay: string, needle: string)
    requires needle != [] && needle[0] !in hay
    ensures !Contains(hay, needle)
  {
    if hay != [] {
      MissingFirstChar(hay[1..], needle);
    }
  }

  lemma LibraryContainsLib()
    ensures Contains(Lower("Library"), Lower("lib"))
  {
    assert Lower("lib") == "lib";
    assert Lower("Library") == "library";
    assert "lib" <= "library";
  }

  lemma LabOmitsLib(lab: string)
    requires lab == "Lab 1" || lab == "Lab 2"
    ensures !Contains(Lower(lab), Lower("lib"))
  {
    assert Lower("lib") == "lib";
    var low := Lower(lab);
    assert low[0] == 'l' && low[1] == 'a' && low[2] == 'b' && low[3] == ' ';
    assert low[4] == '1' || low[4] == '2';
    assert 'i' !in low[1..];
    MissingFirstChar(low[1..], "lib");
  }

  /** Distinct names that form exactly the set {m} form the list [m]. */
  lemma SingleName(r: seq<Room>, m: string)
    requires NamesDistinct(r)
    requires forall n :: n in Names(r) <==> n == m
    ensures Names(r) == [m]
  {
    assert m in Names(r);
    if |r| > 1 {
      FirstTwoNames(r);
      assert false;
    }
  }

  lemma FirstTwoNames(r: seq<Room>)
    requires |r| > 1
    ensures Names(r)[0] in Names(r) && Names(r)[1] in Names(r)
  {
  }

  /** When exactly the rooms named `m` are wanted, a non-empty query returns
      the one room name `m`. */
  lemma OnlyOneNameWanted(rooms: seq<Room>, query: string, limit: int, threshold: int, extract: Extractor, m: string)
    requires query != ""
    requires m in Names(rooms)
    requires forall room :: room in rooms ==> (Wanted(rooms, query, limit, threshold, extract, room) <==> room.name == m)
    ensures Names(Search(rooms, query, limit, threshold, extract)) == [m]
  {
    var r := Search(rooms, query, limit, threshold, extract);
    SearchDistinctSorted(rooms, query, limit, threshold, extract);
    NameOfMember(rooms, m);
    forall n ensures n in Names(r) <==> n == m {
      SearchNames(rooms, query, limit, threshold, extract, n);
    }
    SingleName(r, m);
  }

  /** Among "Library", "Lab 1" and "Lab 2", the query "lib" yields only
      "Library", provided the fuzzy matcher proposes nothing else. */
  lemma LibraryExample(rooms: seq<Room>, extract: Extractor)
    requires Names(rooms) == ["Library", "Lab 1", "Lab 2"]
    requires forall n :: n in extract("lib", ["Library", "Lab 1", "Lab 2"], 5, 60) ==> n == "Library"
    ensures Names(Search(rooms, "lib", 5, 60, extract)) == ["Library"]
  {
    var names := Names(rooms);
    assert names[0] == "Library";
    forall room | room in rooms
      ensures Wanted(rooms, "lib", 5, 60, extract, room) <==> room.name == "Library"
    {
      var k :| 0 <= k < |rooms| && rooms[k] == room;
      assert room.name == names[k];
      if k == 0 {
        LibraryContainsLib();
      } else {
        LabOmitsLib(room.name);
        assert room.name != "Library";
      }
    }
    assert "Library" in names;
    OnlyOneNameWanted(rooms, "lib", 5, 60, extract, "Library");
  }

  /** `get_fuzzy_suggestions`: the fuzzy matches' names in the extractor's
      rank order, not re-sorted; nothing for an empty query. */
  function FuzzySuggestions(rooms: seq<Room>, query: string, limit: int, threshold: int, extract: Extractor): (r: seq<string>)
    ensures query == "" ==> r == []
    ensures query != "" ==> r == extract(query, Names(rooms), limit, threshold)
  {
    if query == "" then [] else extract(query, Names(rooms), limit, threshold)
  }

  /** When `extract` keeps to its limit and picks among the choices it is
      given, the suggestions are at most `limit` room names. */
  lemma SuggestionsWithinLimit(rooms: seq<Room>, query: string, limit: int, threshold: int, extract: Extractor)
    requires 0 <= limit
    requires |extract(query, Names(rooms), limit, threshold)| <= limit
    requires forall n :: n in extract(query, Names(rooms), limit, threshold) ==> n in Names(rooms)
    ensures |FuzzySuggestions(rooms, query, limit, threshold, extract)| <= limit
    ensures forall n :: n in FuzzySuggestions(rooms, query, limit, threshold, extract) ==> n in Names(rooms)
  {
  }

  /** With the same limit and threshold, every suggestion that names a room
      is also a name `search` returns. */
  lemma SuggestionsAreSearchResults(rooms: seq<Room>, query: string, limit: int, threshold: int, extract: Extractor, n: string)
    requires n in FuzzySuggestions(rooms, query, limit, threshold, extract)
    requires n in Names(rooms)
    ensures n in Names(Search(rooms, query, limit, threshold, extract))
  {
    SearchNames(rooms, query, limit, threshold, extract, n);
    NameOfMember(rooms, n);
  }
}
