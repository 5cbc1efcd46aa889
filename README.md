# Campus room finder — verified model of the business logic

This project is a Dafny model of the core of the campus room finder
(`campus-room-finder/campus_data_logic.py`). It covers five parts:

- the geofence: the even-odd ray-casting test `point_in_polygon` and
  `calculate_bounding_box`;
- the loaders: `Room.__post_init__`, `load_rooms` (per-record defaults, then
  a stable sort by lower-cased name), `_parse_coordinate_row` (WKT `POINT`,
  the two-decimal fallback, then `lat|latitude|y` / `lon|longitude|x`
  columns) and `load_campus_boundary` (skip rows that fail, keep the rest in
  order);
- the room search: `RoomSearchEngine.search` (substring matches united with
  fuzzy matches, one room per name, sorted) and `get_fuzzy_suggestions`;
- access control: `AccessController.is_location_valid`, the ordered,
  fail-closed three-way refusal;
- the route envelope of `RouteCalculator.get_walking_route`: from the decoded
  JSON body to `None` or a `RouteInfo` with rounded kilometres and minutes.

Python's exceptions are values of a `Result` type. Python's `None` is
`Option.None`. Decoded JSON is the `Json` datatype. Coordinates are exact
reals.

Modules, one per file:

- `Wrappers`: Option and Result.
- `Values`: JSON values, exceptions, truthiness, `str()` of integers.
- `Text`: `isspace`, `lower`, `strip`, substring test, string order.
- `Geometry`
- `Boundary`
- `Rooms`
- `Search`
- `Access`
- `Route`

Each step-by-step source loop is a method proved against a specification
function:

- `PointInPolygon` against `RayCast` / `CrossingCount`;
- `LoadRooms` against `DecodedRooms` and `SortByName`;
- `LoadCampusBoundary` against `ParsedPoints`.

Functions cannot call methods. So `Access.IsLocationValid` uses `RayCast`,
and `PointInPolygon`'s contract shows that `RayCast` is what the method
returns.

Behaviour of the code that a caller may not expect, which the model keeps:

- `point_in_polygon` divides by `yj - yi + 1e-12`. When an edge straddles
  the ray and `yi - yj` is exactly `1e-12`, this raises ZeroDivisionError.
  `is_location_valid` does not catch it, so a refusal is not always a value.
- The `1e-12` also moves the crossing point. A two-vertex "ring" can report
  a point as inside (`Geometry.TwoVertexRingCanContainAPoint`).
- `load_rooms` catches only FileNotFoundError, JSONDecodeError and KeyError.
  - A record that is not an object raises AttributeError (`.get`).
  - A non-string `room_name` raises AttributeError (`.lower()` in the sort
    key).
  - A top-level number, boolean or null raises TypeError (not iterable).
  - All of these escape.
- `search("")` returns the room list as it is: neither deduplicated nor
  re-sorted. The list is sorted only because `load_rooms` sorted it.
- In the route envelope, some malformed responses raise TypeError, which the
  `except` clause does not catch, instead of giving `None`. Examples: a
  non-zero number, `true`, a list holding `"routes"`, a `routes` that is null, a
  number, a boolean or a non-empty string, or a non-numeric `distance`.
- Rounding is Python's `round`, ties to even. On exact reals, a 1234.5 m,
  615 s route gives 1.23 km and 10.2 minutes, not 10.3 (615/60 = 10.25 is a
  tie). The model follows the code.

## Model

| member | source | states |
|---|---|---|
| Geometry.EdgeTest | campus-room-finder/campus_data_logic.py:79-83 | A horizontal edge never counts. Only an edge straddling the ray's latitude can cross it or fail. The division fails exactly when the edge straddles and `yi - yj` is `1e-12`. |
| Geometry.CrossingCount | campus-room-finder/campus_data_logic.py:76-86 | The number of crossed edges among the first `k` is at most `k`. |
| Geometry.RayCast | campus-room-finder/campus_data_logic.py:56-88 | The even-odd rule as a function. An empty ring gives false. The only exception is ZeroDivisionError. A point south of every vertex, or level with or north of every vertex, is outside: no edge straddles its latitude. |
| Geometry.PointInPolygon | campus-room-finder/campus_data_logic.py:56-88 | An empty ring gives false. ZeroDivisionError is raised exactly when some wrapped edge `(poly[i-1 mod n], poly[i])` divides by zero. Otherwise the result is true exactly when the ray crosses an odd number of edges. |
| Geometry.SingleVertexNeverInside | campus-room-finder/campus_data_logic.py:68-88 | A one-vertex ring never contains a point. |
| Geometry.TwoVertexRingCanContainAPoint | campus-room-finder/campus_data_logic.py:76-88 | Because of the epsilon, a point just beside a degenerate two-vertex ring is reported inside. |
| Geometry.Min | campus-room-finder/campus_data_logic.py:104-108 | `min` is a lower bound of the list and one of its elements. |
| Geometry.Max | campus-room-finder/campus_data_logic.py:104-108 | `max` is an upper bound of the list and one of its elements. |
| Geometry.BoundingBox | campus-room-finder/campus_data_logic.py:91-110 | An empty ring gives `[[0,0],[0,0]]`. Otherwise every vertex lies within the box, and each of the four bounds is attained by some vertex. |
| Values.Get | campus-room-finder/campus_data_logic.py:135-139 | `dict.get` returns the stored value when the key is present and the default otherwise. |
| Values.Truthy | campus-room-finder/campus_data_logic.py:339 | `not data` holds exactly for null, `False`, zero, and the empty string, list and object. |
| Values.Number | campus-room-finder/campus_data_logic.py:345-346 | JSON integers, floats and booleans are numbers, with their numeric value (`True` is 1, `False` is 0). Nothing else is. |
| Values.NatToDecimal | campus-room-finder/campus_data_logic.py:34 | `str()` of a natural number is a non-empty string of digits without leading zeros. |
| Values.NatToDecimalRoundTrip | campus-room-finder/campus_data_logic.py:34 | Reading back the digits of `str(n)` gives `n`. |
| Values.Str | campus-room-finder/campus_data_logic.py:34 | `str()` of a string is the string itself. |
| Text.Lower | campus-room-finder/campus_data_logic.py:255-260 | `lower()` keeps the length and lower-cases each character. |
| Text.SameIgnoringCaseLower | campus-room-finder/campus_data_logic.py:208 | A case-insensitive comparison with lower-case text, letter by letter, agrees with comparing the lowered text. |
| Text.Strip | campus-room-finder/campus_data_logic.py:205 | `strip()` is empty exactly when the text is all whitespace. Otherwise it starts and ends with a non-space character. It is a slice of the text with only whitespace removed before and after it. |
| Text.StripUnchanged | campus-room-finder/campus_data_logic.py:205 | Text without surrounding whitespace is left unchanged by `strip()`. |
| Text.Contains | campus-room-finder/campus_data_logic.py:260 | `needle in hay` holds exactly when the needle occurs at some position of the text. |
| Text.LexLeReflexive | campus-room-finder/campus_data_logic.py:144 | The string order of the sort key is reflexive. |
| Text.LexLeTotal | campus-room-finder/campus_data_logic.py:144 | Any two sort keys are comparable. |
| Text.LexLeAntisymmetric | campus-room-finder/campus_data_logic.py:144 | Keys ordered both ways are equal. |
| Text.LexLeTransitive | campus-room-finder/campus_data_logic.py:144 | The order is transitive. |
| Boundary.DigitsEnd | campus-room-finder/campus_data_logic.py:208 | `\d+` stops only at the end of the text or at a character that is not an ASCII digit. |
| Boundary.DigitsEndRun | campus-room-finder/campus_data_logic.py:208 | Every character `\d+` consumes is an ASCII digit. With DigitsEnd, it consumes the maximal run. |
| Boundary.SpacesEnd | campus-room-finder/campus_data_logic.py:208 | `\s*` stops only at the end of the text or at a character that is not whitespace. |
| Boundary.SpacesEndRun | campus-room-finder/campus_data_logic.py:208 | Every character `\s*` consumes is whitespace. With SpacesEnd, it consumes the maximal run. |
| Boundary.SeparatorsEnd | campus-room-finder/campus_data_logic.py:211 | `[,\s]+` stops only at the end of the text or at a character that is neither a comma nor whitespace. |
| Boundary.SeparatorsEndRun | campus-room-finder/campus_data_logic.py:211 | Every character `[,\s]+` consumes is a comma or whitespace. With SeparatorsEnd, it consumes the maximal run. |
| Boundary.NumberAt | campus-room-finder/campus_data_logic.py:208 | A match of `-?\d+\.\d+` is non-empty, stays within the text, and is not followed by a digit. |
| Boundary.NumberAtIsDecimal | campus-room-finder/campus_data_logic.py:208 | The text a match covers is a decimal literal: an optional minus, digits, a dot, digits. |
| Boundary.PointAt | campus-room-finder/campus_data_logic.py:208 | A match of the POINT pattern starts with `point` in any letter case. |
| Boundary.PointAtSpaced | campus-room-finder/campus_data_logic.py:208 | The POINT pattern matches this text: `point` in any letter case, optional whitespace, `(`, optional whitespace, a decimal, non-empty whitespace, a decimal, optional whitespace and `)`. Its groups are the two decimals, in order, whatever text follows. |
| Boundary.PointAtShape | campus-room-finder/campus_data_logic.py:208 | Every POINT match has that layout. It is the keyword, then whitespace runs around `(` and before `)`. A non-empty whitespace run separates the two groups. |
| Boundary.NoPointKeyword | campus-room-finder/campus_data_logic.py:208 | Text without a `p` or `P` holds no POINT match. |
| Boundary.PairAt | campus-room-finder/campus_data_logic.py:211 | A match of the fallback pattern starts with its first group. |
| Boundary.PairAtLayout | campus-room-finder/campus_data_logic.py:211 | The fallback pattern matches a decimal, a non-empty run of commas and whitespace, and a decimal not followed by a digit. Its groups are the two decimals, in order. |
| Boundary.PairAtShape | campus-room-finder/campus_data_logic.py:211 | Every fallback match is its first group, a non-empty run of commas and whitespace, and its second group, with no digit after it. |
| Boundary.GroupsAreDecimals | campus-room-finder/campus_data_logic.py:208-211 | Both patterns capture two decimal literals. |
| Boundary.Find | campus-room-finder/campus_data_logic.py:208-211 | `re.search` returns the match at the leftmost position where the pattern matches, or nothing when it matches nowhere. |
| Boundary.FirstFilled | campus-room-finder/campus_data_logic.py:205-219 | An `or` chain of `row.get` calls gives the first non-empty cell. When there is none, it gives the last key's cell, or None if that key is absent. |
| Boundary.FirstFilledTwo | campus-room-finder/campus_data_logic.py:205 | `row.get(a) or row.get(b)` is the cell of `a` when it is non-empty, else the cell of `b`, else None. |
| Boundary.WktText | campus-room-finder/campus_data_logic.py:205 | The WKT text is the stripped `WKT` cell when that cell is non-empty. Otherwise it is the stripped `wkt` cell, or empty. |
| Boundary.WktSearch | campus-room-finder/campus_data_logic.py:206-211 | Blank WKT text gives no match. When the POINT pattern matches somewhere, the result is the leftmost POINT match. When it matches nowhere, a result is the leftmost fallback match. No result means neither pattern matches at any position. |
| Boundary.FindEither | campus-room-finder/campus_data_logic.py:207-211 | Searching with one pattern and then with another gives the first pattern's leftmost match whenever it has one. Otherwise any result is the second pattern's leftmost match. It finds nothing exactly when neither pattern matches anywhere. |
| Boundary.ColumnCoordinates | campus-room-finder/campus_data_logic.py:218-224 | "No valid coordinates" is raised exactly when the latitude or the longitude chain is None. A vertex results exactly when both chains are present and `float` accepts both, and it is `(float(lat), float(lon))`. When `float` rejects the latitude, that cell is the error, since it is converted first. |
| Boundary.ParseCoordinateRow | campus-room-finder/campus_data_logic.py:191-224 | A WKT match (the POINT pattern, else the two-decimal fallback) decides the row. It yields `(b, a)` exactly when both groups parse, whatever the other columns hold. Without a match the row falls through to the columns. Only then can the row lack coordinates. |
| Boundary.BlankWktFallsThrough | campus-room-finder/campus_data_logic.py:205-206 | A missing, empty or all-whitespace WKT cell leaves the decision to the latitude/longitude columns. |
| Boundary.BadLatitudeSkipped | campus-room-finder/campus_data_logic.py:177-224 | A row with a blank WKT cell, both coordinate chains present, and a latitude that `float` rejects raises ValueError. The loader skips that row and keeps the rows before and after it. |
| Boundary.NumberAtDecimal | campus-room-finder/campus_data_logic.py:208 | `-?\d+\.\d+` matched at the start of a decimal literal ends exactly after it. |
| Boundary.PointPatternRoundTrip | campus-room-finder/campus_data_logic.py:208 | Formatting two decimals as `POINT(a b)` and matching the pattern returns the two decimals, `a` first. |
| Boundary.WktRowRoundTrip | campus-room-finder/campus_data_logic.py:205-215 | A row whose WKT cell is `POINT(lon lat)` yields the vertex `(lat, lon)`. |
| Boundary.WktExample | campus-room-finder/campus_data_logic.py:205-215 | `POINT(37.150 -0.748)` yields the vertex `(-0.748, 37.15)`. |
| Boundary.PairSearch | campus-room-finder/campus_data_logic.py:206-211 | In WKT text made of two decimals joined by commas and whitespace, the search falls back to the second pattern. It finds the two decimals, in order. |
| Boundary.WktPairRow | campus-room-finder/campus_data_logic.py:205-215 | A row whose WKT cell is two decimals `a` and `b` joined by commas and whitespace yields the vertex `(b, a)`. |
| Boundary.WktPairExample | campus-room-finder/campus_data_logic.py:205-215 | `36.1, -0.7` yields the vertex `(-0.7, 36.1)`. |
| Boundary.ParsedPointsAppend | campus-room-finder/campus_data_logic.py:176-182 | Loading two blocks of rows gives the points of the first block followed by the points of the second. |
| Boundary.SkipsBadRow | campus-room-finder/campus_data_logic.py:177-182 | A row that raises is skipped, and the rows after it are still loaded. |
| Boundary.PointOf | campus-room-finder/campus_data_logic.py:177-182 | A row contributes at most one vertex, and none exactly when parsing it raises. |
| Boundary.ParsedPointsMembers | campus-room-finder/campus_data_logic.py:176-182 | A point is loaded exactly when some row parses to it. |
| Boundary.ParsedPointsAllRows | campus-room-finder/campus_data_logic.py:176-182 | When every row parses, the ring is the rows' points, one per row, in row order. |
| Boundary.LoadCampusBoundary | campus-room-finder/campus_data_logic.py:151-188 | A missing file gives `[]`. Otherwise the result is exactly the parsed rows' points, in row order. |
| Rooms.NormalizeFloor | campus-room-finder/campus_data_logic.py:29-34 | A `None` floor becomes `""`. A string floor stays as it is. Any other floor becomes `str(floor)`. |
| Rooms.DecodeRoom | campus-room-finder/campus_data_logic.py:133-141 | A record gives a Room exactly when it is an object whose `room_name`, if present, is a string. Otherwise it raises AttributeError. A present `room_name` is the name. `building`, `lat` and `lon` are kept as stored. A present floor goes through `__post_init__`. Missing `room_name`/`building` default to `""`, a missing floor to `""`, and missing `lat`/`lon` to None. |
| Rooms.Records | campus-room-finder/campus_data_logic.py:127-133 | A missing or undecodable file gives no records. A list gives its elements. An empty object or empty string gives none, and a non-empty one raises AttributeError. A number, boolean or null raises TypeError. |
| Rooms.DecodeAll | campus-room-finder/campus_data_logic.py:132-141 | All records decode, element by element in file order, or else AttributeError is raised. |
| Rooms.Insert | campus-room-finder/campus_data_logic.py:144 | Inserting into the sorted list adds exactly that room. |
| Rooms.InsertPosition | campus-room-finder/campus_data_logic.py:144 | The room lands after every room whose key is strictly below its own and before the first one that is not. The other rooms stay in order. |
| Rooms.SortByName | campus-room-finder/campus_data_logic.py:144 | The sort is a permutation of its input, sorted by lower-cased name. |
| Rooms.InsertSorted | campus-room-finder/campus_data_logic.py:144 | Insertion keeps a list sorted by lower-cased name. |
| Rooms.InsertWithKey | campus-room-finder/campus_data_logic.py:144 | Insertion puts the room ahead of the rooms that share its key, and leaves the other keys' rooms unchanged. Inserting each head into the sorted tail therefore keeps input order among equal keys. |
| Rooms.SortStable | campus-room-finder/campus_data_logic.py:144 | Rooms with equal keys keep their input order (stability). |
| Rooms.StableSortUnique | campus-room-finder/campus_data_logic.py:144 | Two sorted lists with the same rooms per key, in the same order, are equal. So a sorted, stable permutation is Python's `sorted`. |
| Rooms.LoadRooms | campus-room-finder/campus_data_logic.py:117-148 | The loader raises exactly what decoding raises. Otherwise its result is a permutation of the decoded rooms, sorted by lower-cased name, with ties in file order. |
| Search.Names | campus-room-finder/campus_data_logic.py:238 | `room_names` lists the rooms' names in order. |
| Search.SubstringMatches | campus-room-finder/campus_data_logic.py:258-261 | These are exactly the rooms whose lower-cased name contains the lower-cased query. |
| Search.RoomsNamed | campus-room-finder/campus_data_logic.py:272-276 | These are exactly the rooms whose name is among the fuzzy names. |
| Search.FindName | campus-room-finder/campus_data_logic.py:279 | Gives the position of an entry with the name, or -1 exactly when no entry has it. |
| Search.Put | campus-room-finder/campus_data_logic.py:279 | A dict assignment appends the room exactly when its name is new. Otherwise the length stays, and only an entry with the same name is replaced, by the room. The room is always present afterwards. |
| Search.PutFacts | campus-room-finder/campus_data_logic.py:279 | A dict assignment adds a new name at the end or keeps the key order. It keeps names distinct. The assigned name holds the new room, and the other entries stay. |
| Search.ByNameDistinct | campus-room-finder/campus_data_logic.py:279 | The dict comprehension holds one room per name. |
| Search.ByNameKeys | campus-room-finder/campus_data_logic.py:279 | Its keys are the input names in order of first occurrence. |
| Search.ByNameLastWins | campus-room-finder/campus_data_logic.py:279 | Each value is the last input room with its name. |
| Search.ByNameMembers | campus-room-finder/campus_data_logic.py:279 | Each value is an input room. |
| Search.ByName | campus-room-finder/campus_data_logic.py:279 | The comprehension has at most as many values as rooms. The last room is always among them. |
| Search.SortDistinct | campus-room-finder/campus_data_logic.py:282 | Sorting keeps names distinct. |
| Search.Search | campus-room-finder/campus_data_logic.py:252-253 | An empty query returns the room list unchanged. |
| Search.SearchDistinctSorted | campus-room-finder/campus_data_logic.py:255-282 | A non-empty query returns each name at most once, sorted by lower-cased name. |
| Search.SearchFromRooms | campus-room-finder/campus_data_logic.py:255-282 | A non-empty query returns only rooms of the list, each matching the query by substring or by fuzzy name. |
| Search.SearchNames | campus-room-finder/campus_data_logic.py:255-282 | A name is in the result exactly when some room with that name contains the query (ignoring case) or is among the fuzzy matches. |
| Search.SearchFindsSubstrings | campus-room-finder/campus_data_logic.py:255-261 | Every room whose lower-cased name contains the lower-cased query is found by name, whatever the fuzzy matcher returns. |
| Search.OnlyOneNameWanted | campus-room-finder/campus_data_logic.py:255-282 | When exactly the rooms named `m` match, the result is the single name `m`. |
| Search.LibraryExample | campus-room-finder/campus_data_logic.py:255-282 | Among "Library", "Lab 1" and "Lab 2", "lib" returns just "Library", unless the fuzzy matcher proposes another name. |
| Search.FuzzySuggestions | campus-room-finder/campus_data_logic.py:284-306 | An empty query gives no suggestions. Otherwise the result is the fuzzy matches' names in rank order, not re-sorted. |
| Search.SuggestionsAreSearchResults | campus-room-finder/campus_data_logic.py:264-306 | With the same limit and threshold, a suggestion that names a room is a name `search` returns. |
| Search.SuggestionsWithinLimit | campus-room-finder/campus_data_logic.py:296-306 | When `extract` keeps to its limit and picks among the names it is given, there are at most `limit` suggestions, all of them room names. |
| Access.IsLocationValid | campus-room-finder/campus_data_logic.py:367-392 | A missing location is refused with the GPS message, whatever the boundary. Then an empty boundary is refused with the boundary message. ZeroDivisionError is raised only where the containment test raises it. Access is granted with an empty message, and only when the ray crosses the boundary an odd number of times. A refusal carries one of the three messages. |
| Access.AllowedExactlyInside | campus-room-finder/campus_data_logic.py:377-392 | Access is granted exactly when there is a location and the containment test says inside. |
| Access.DenialsDistinct | campus-room-finder/campus_data_logic.py:377-390 | A point outside a non-empty boundary gets the outside message. The three refusal messages differ. |
| Route.Pow10 | campus-room-finder/campus_data_logic.py:345-346 | The rounding scale is at least 1. |
| Route.RoundHalfEven | campus-room-finder/campus_data_logic.py:345-346 | `round` gives an integer within one half of x. On a tie it gives the even one. |
| Route.RoundHalfEvenUnique | campus-room-finder/campus_data_logic.py:345-346 | Those two properties determine the result. |
| Route.ScaledRound | campus-room-finder/campus_data_logic.py:345-346 | `round` at scale `p` is within `1/(2p)` of x. |
| Route.Round | campus-room-finder/campus_data_logic.py:345-346 | `round(x, d)` is within half a unit of the d-th decimal of x. |
| Route.ScaledRoundUnits | campus-room-finder/campus_data_logic.py:345-346 | The result is a whole number of units `1/p` (at most two decimals for kilometres, one for minutes): the half-even rounding of `x * p`. |
| Route.RoundIdempotent | campus-room-finder/campus_data_logic.py:345-346 | Rounding an already rounded value changes nothing. |
| Route.HasKey | campus-room-finder/campus_data_logic.py:339 | `"routes" in data` raises TypeError exactly for null, booleans and numbers. On an object it is a key test. |
| Route.Item | campus-room-finder/campus_data_logic.py:339-347 | `v[key]` succeeds exactly on an object holding the key. It raises KeyError on other objects and TypeError on everything else. |
| Route.Len | campus-room-finder/campus_data_logic.py:339 | `len` fails exactly on values that are not lists, objects or strings. On a list it is the length. |
| Route.First | campus-room-finder/campus_data_logic.py:342 | `routes[0]` succeeds except on an object (KeyError). On a list it is the first element. |
| Route.Divide | campus-room-finder/campus_data_logic.py:345-346 | Division succeeds exactly on a JSON number and gives the quotient. Otherwise it raises TypeError. |
| Route.BuildRoute | campus-room-finder/campus_data_logic.py:342-348 | A RouteInfo results exactly for an object with numeric `distance`, numeric `duration` and a `geometry`. It holds `round(distance/1000, 2)`, `round(duration/60, 1)` and the geometry unchanged. Otherwise a key missing in evaluation order raises KeyError, and anything else raises TypeError. |
| Route.Envelope | campus-room-finder/campus_data_logic.py:339-348 | An empty response gives None. The only exceptions are KeyError and TypeError. A route comes only from an object whose `routes` is a non-empty list, and it is built from the first element. |
| Route.NormalizeRoute | campus-room-finder/campus_data_logic.py:329-352 | Apart from `None` or a route, the only outcome is an uncaught TypeError. |
| Route.RouteExactly | campus-room-finder/campus_data_logic.py:339-348 | A route is returned exactly for an object whose `routes` is a non-empty list whose first element is an object with numeric `distance`, numeric `duration` and a `geometry`. It holds `round(distance/1000, 2)`, `round(duration/60, 1)` and the geometry unchanged. |
| Route.NoRoute | campus-room-finder/campus_data_logic.py:339-352 | `None` results from an empty response, a missing `routes` key, an empty `routes` list, or a missing `distance`/`duration`/`geometry` reached in evaluation order (KeyError caught). |
| Route.TypeErrorEscapes | campus-room-finder/campus_data_logic.py:339-350 | A non-zero number, `true`, a list holding `"routes"`, a `routes` that is any number, or a string `distance` raises TypeError. |
| Route.RouteExample | campus-room-finder/campus_data_logic.py:344-348 | 1234.5 m and 615 s give 1.23 km and 10.2 minutes. |

## Left out

- File access, `json.load`, `csv.DictReader` and the `print` logging are not modelled. The loaders start from the decoded JSON document, or the decoded rows, as parameters. A missing or undecodable file is `None`.
- Boundary.LoadCampusBoundary: a read error partway through the file (the outer `except Exception`) is not modelled. The model reads every row. In the source, the points read before the error are kept.
- The HTTP request of `get_walking_route` is not modelled: the URL, `requests.get`, the timeout, `raise_for_status` and `RequestException`. The model starts from the decoded body.
- rapidfuzz's `process.extract` is the parameter `extract` (its scoring is a foreign library). Properties that depend on it, such as the limit on suggestions (`Search.SuggestionsWithinLimit`), are stated under hypotheses about `extract`.
- Python's `float()` of text is the parameter `toFloat`. `str()` of floats, lists and objects is the parameter `repr`. `str()` of integers is modelled.
- Floating point is not modelled: coordinates and route figures are exact reals, and `round` is ties-to-even on exact reals. Binary rounding effects, infinities, NaN, and the ValueError/OverflowError they can raise are not modelled.
- Text.Lower: lower-cases ASCII letters only. Python's full Unicode case mapping is not modelled. The regex `\d` and the `IGNORECASE` flag are taken as ASCII.
- The invariance of the containment test under reversing the ring is not claimed. The `1e-12` added to the denominator makes the crossing point depend on the edge direction.
- `Config`, the UI files and the Streamlit script are not part of this model.
- `RoomSearchEngine` and `AccessController` store their collections at construction and never change them. The collections are therefore parameters rather than class fields.
