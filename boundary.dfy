/** `DataLoader._parse_coordinate_row` and `DataLoader.load_campus_boundary`:
    reading boundary vertices from CSV rows that give a WKT point or
    latitude/longitude columns. */
module Boundary {
  import opened Wrappers
  import opened Text
  import opened Geometry

  /** A CSV row as `csv.DictReader` yields it: column name to cell text. A
      column the row lacks (or a short row's missing cell) is an absent key. */
  type Row = map<string, string>

  function DigitsEnd(s: string, p: nat): (e: nat)
    requires p <= |s|
    ensures p <= e <= |s|
    ensures e < |s| ==> !IsDigit(s[e])
    decreases |s| - p
  {
    if p < |s| && IsDigit(s[p]) then DigitsEnd(s, p + 1) else p
  }

  /** Every character DigitsEnd skips is a digit. */
  lemma {:induction false} DigitsEndRun(s: string, p: nat)
    requires p <= |s|
    ensures forall k :: p <= k < DigitsEnd(s, p) ==> IsDigit(s[k])
    decreases |s| - p
  {
    if p < |s| && IsDigit(s[p]) {
      DigitsEndRun(s, p + 1);
    }
  }

  function SpacesEnd(s: string, p: nat): (e: nat)
    requires p <= |s|
    ensures p <= e <= |s|
    ensures e < |s| ==> !IsSpace(s[e])
    decreases |s| - p
  {
    if p < |s| && IsSpace(s[p]) then SpacesEnd(s, p + 1) else p
  }

  /** Every character SpacesEnd skips is a whitespace character. */
  lemma {:induction false} SpacesEndRun(s: string, p: nat)
    requires p <= |s|
    ensures forall k :: p <= k < SpacesEnd(s, p) ==> IsSpace(s[k])
    decreases |s| - p
  {
    if p < |s| && IsSpace(s[p]) {
      SpacesEndRun(s, p + 1);
    }
  }

  predicate IsSeparator(c: char)
  {
    c == ',' || IsSpace(c)
  }

  function SeparatorsEnd(s: string, p: nat): (e: nat)
    requires p <= |s|
    ensures p <= e <= |s|
    ensures e < |s| ==> !IsSeparator(s[e])
    decreases |s| - p
  {
    if p < |s| && IsSeparator(s[p]) then SeparatorsEnd(s, p + 1) else p
  }

  /** Every character SeparatorsEnd skips is a comma or whitespace character. */
  lemma {:induction false} SeparatorsEndRun(s: string, p: nat)
    requires p <= |s|
    ensures forall k :: p <= k < SeparatorsEnd(s, p) ==> IsSeparator(s[k])
    decreases |s| - p
  {
    if p < |s| && IsSeparator(s[p]) {
      SeparatorsEndRun(s, p + 1);
    }
  }

  /** Where the regex `-?\d+\.\d+` ends when matched at `p`. Every part of it
      is greedy and nothing it could give back lets the rest match, so the
      match, when there is one, is unique. */
  function NumberAt(s: string, p: nat): (r: Option<nat>)
    requires p <= |s|
    ensures r.Some? ==> p < r.value <= |s|
    ensures r.Some? && r.value < |s| ==> !IsDigit(s[r.value])
  {
    var q := if p < |s| && s[p] == '-' then p + 1 else p;
    var d := DigitsEnd(s, q);
    if d == q || d == |s| || s[d] != '.' then None
    else
      var e := DigitsEnd(s, d + 1);
      if e == d + 1 then None else Some(e)
  }

  /** What NumberAt matches is a decimal literal `-?\d+\.\d+`. */
  lemma NumberAtIsDecimal(s: string, p: nat)
    requires p <= |s|
    ensures NumberAt(s, p).Some? ==> IsDecimalText(s[p..NumberAt(s, p).value])
  {
    if NumberAt(s, p).Some? {
      var q := if p < |s| && s[p] == '-' then p + 1 else p;
      var d := DigitsEnd(s, q);
      DigitsEndRun(s, q);
      DigitsEndRun(s, d + 1);
      DecimalSliced(s, p, q, d, NumberAt(s, p).value);
    }
  }

  /** An optional minus, digits, a dot and digits, cut out of `s`, form a
      decimal literal. */
  lemma DecimalSliced(s: string, p: nat, q: nat, d: nat, e: nat)
    requires p <= q < d && d + 1 < e <= |s|
    requires q == p || (q == p + 1 && s[p] == '-')
    requires s[d] == '.'
    requires forall k :: q <= k < d ==> IsDigit(s[k])
    requires forall k :: d + 1 <= k < e ==> IsDigit(s[k])
    ensures ValidDecimal(Decimal(q == p + 1, s[q..d], s[d + 1..e]))
    ensures s[p..e] == DecimalText(Decimal(q == p + 1, s[q..d], s[d + 1..e]))
  {
    var x := Decimal(q == p + 1, s[q..d], s[d + 1..e]);
    assert s[p..e] == s[p..q] + s[q..d] + [s[d]] + s[d + 1..e];
    assert s[p..q] == (if q == p + 1 then "-" else "");
    assert [s[d]] == ".";
    forall k | 0 <= k < |x.whole| ensures IsDigit(x.whole[k]) {
      assert x.whole[k] == s[q + k];
    }
    forall k | 0 <= k < |x.fraction| ensures IsDigit(x.fraction[k]) {
      assert x.fraction[k] == s[d + 1 + k];
    }
  }

  /** `POINT\s*\(\s*(-?\d+\.\d+)\s+(-?\d+\.\d+)\s*\)`, case-insensitive,
      matched at `p`: the two groups' text. */
  function PointAt(s: string, p: nat): (r: Option<(string, string)>)
    ensures r.Some? ==> p + 5 <= |s| && SameIgnoringCase(s[p..p + 5], "point")
  {
    if p + 5 > |s| || !SameIgnoringCase(s[p..p + 5], "point") then None
    else PointOpen(s, SpacesEnd(s, p + 5))
  }

  /** The POINT pattern from `\(` on, at `a`. */
  function PointOpen(s: string, a: nat): Option<(string, string)>
    requires a <= |s|
  {
    if a == |s| || s[a] != '(' then None
    else PointFirst(s, SpacesEnd(s, a + 1))
  }

  /** The POINT pattern from its first group on, at `b`. */
  function PointFirst(s: string, b: nat): Option<(string, string)>
    requires b <= |s|
  {
    match NumberAt(s, b)
    case None => None
    case Some(c) => PointSecond(s, b, c)
  }

  /** The POINT pattern from `\s+` on, at `c`, the first group `s[b..c]`. */
  function PointSecond(s: string, b: nat, c: nat): Option<(string, string)>
    requires b <= c <= |s|
  {
    var d := SpacesEnd(s, c);
    if d == c then None
    else
      match NumberAt(s, d)
      case None => None
      case Some(e) => PointClose(s, s[b..c], d, e)
  }

  /** The POINT pattern from `\s*\)` on, at `e`, the groups `g1` and `s[d..e]`. */
  function PointClose(s: string, g1: string, d: nat, e: nat): Option<(string, string)>
    requires d <= e <= |s|
  {
    var f := SpacesEnd(s, e);
    if f == |s| || s[f] != ')' then None
    else Some((g1, s[d..e]))
  }

  /** `(-?\d+\.\d+)[,\s]+(-?\d+\.\d+)` matched at `p`: the two groups' text. */
  function PairAt(s: string, p: nat): (r: Option<(string, string)>)
    ensures r.Some? ==> p + |r.value.0| <= |s| && s[p..p + |r.value.0|] == r.value.0
  {
    if p > |s| then None
    else
      match NumberAt(s, p)
      case None => None
      case Some(c) =>
        var d := SeparatorsEnd(s, c);
        if d == c then None
        else
          match NumberAt(s, d)
          case None => None
          case Some(e) => Some((s[p..c], s[d..e]))
  }

  /** Both patterns capture two decimal literals `-?\d+\.\d+`. */
  lemma GroupsAreDecimals(s: string, p: nat)
    ensures PointAt(s, p).Some? ==> IsDecimalText(PointAt(s, p).value.0) && IsDecimalText(PointAt(s, p).value.1)
    ensures PairAt(s, p).Some? ==> IsDecimalText(PairAt(s, p).value.0) && IsDecimalText(PairAt(s, p).value.1)
  {
    if PointAt(s, p).Some? {
      var b := SpacesEnd(s, SpacesEnd(s, p + 5) + 1);
      NumberAtIsDecimal(s, b);
      NumberAtIsDecimal(s, SpacesEnd(s, NumberAt(s, b).value));
    }
    if PairAt(s, p).Some? {
      NumberAtIsDecimal(s, p);
      NumberAtIsDecimal(s, SeparatorsEnd(s, NumberAt(s, p).value));
    }
  }

  /** `re.search`: the match at the leftmost position from `p` on. */
  function Find(s: string, p: nat, at: (string, nat) -> Option<(string, string)>): (r: Option<(string, string)>)
    requires p <= |s| + 1
    ensures r.None? ==> forall q :: p <= q <= |s| ==> at(s, q).None?
    ensures r.Some? ==> exists q :: p <= q <= |s| && at(s, q) == r &&
                                    forall q' :: p <= q' < q ==> at(s, q').None?
    decreases |s| + 1 - p
  {
    if p == |s| + 1 then None
    else if at(s, p).Some? then at(s, p)
    else Find(s, p + 1, at)
  }

  /** Python's `row.get(k1) or row.get(k2) or ...`: the first non-empty
      value; when there is none, the last key's value (`None` if absent). */
  function FirstFilled(row: Row, keys: seq<string>): (r: Option<string>)
    requires |keys| > 0
    ensures (r.Some? && r.value != "") <==>
      exists i :: 0 <= i < |keys| && keys[i] in row && row[keys[i]] != ""
    ensures r.Some? && r.value != "" ==>
      exists i :: 0 <= i < |keys| && keys[i] in row && row[keys[i]] == r.value &&
        forall j :: 0 <= j < i ==> keys[j] !in row || row[keys[j]] == ""
    ensures (r.None? || r.value == "") ==>
      r == (if keys[|keys| - 1] in row then Some("") else None)
  {
    var v := if keys[0] in row then Some(row[keys[0]]) else None;
    if |keys| == 1 || (v.Some? && v.value != "") then v
    else
      var r := FirstFilled(row, keys[1..]);
      FirstFilledLater(row, keys, r);
      r
  }

  /** When the first key gives nothing non-empty, the later keys' answer is
      the answer for all keys. */
  lemma FirstFilledLater(row: Row, keys: seq<string>, r: Option<string>)
    requires |keys| > 1 && !(keys[0] in row && row[keys[0]] != "")
    requires (r.Some? && r.value != "") <==>
      exists i :: 1 <= i < |keys| && keys[i] in row && row[keys[i]] != ""
    requires r.Some? && r.value != "" ==>
      exists i :: 1 <= i < |keys| && keys[i] in row && row[keys[i]] == r.value &&
        forall j :: 1 <= j < i ==> keys[j] !in row || row[keys[j]] == ""
    ensures (r.Some? && r.value != "") <==>
      exists i :: 0 <= i < |keys| && keys[i] in row && row[keys[i]] != ""
    ensures r.Some? && r.value != "" ==>
      exists i :: 0 <= i < |keys| && keys[i] in row && row[keys[i]] == r.value &&
        forall j :: 0 <= j < i ==> keys[j] !in row || row[keys[j]] == ""
  {
    if r.Some? && r.value != "" {
      var i :| 1 <= i < |keys| && keys[i] in row && row[keys[i]] == r.value &&
        forall j :: 1 <= j < i ==> keys[j] !in row || row[keys[j]] == "";
      assert forall j :: 0 <= j < i ==> keys[j] !in row || row[keys[j]] == "";
    }
    if exists i :: 0 <= i < |keys| && keys[i] in row && row[keys[i]] != "" {
      var i :| 0 <= i < |keys| && keys[i] in row && row[keys[i]] != "";
      assert i >= 1;
    }
  }

  /** `(row.get("WKT") or row.get("wkt") or "").strip()`. */
  function WktText(row: Row): (r: string)
    ensures "WKT" in row && row["WKT"] != "" ==> r == Strip(row["WKT"])
    ensures !("WKT" in row && row["WKT"] != "") ==> r == Strip(if "wkt" in row then row["wkt"] else "")
  {
    var v := FirstFilled(row, ["WKT", "wkt"]);
    var cell := if v.Some? then v.value else "";
    assert cell == if "WKT" in row && row["WKT"] != "" then row["WKT"]
                   else if "wkt" in row then row["wkt"] else "" by {
      FirstFilledTwo(row, "WKT", "wkt");
    }
    Strip(cell)
  }

  /** `row.get(a) or row.get(b)`, with the `None` of a missing `b` kept. */
  lemma FirstFilledTwo(row: Row, a: string, b: string)
    ensures FirstFilled(row, [a, b]) ==
      if a in row && row[a] != "" then Some(row[a]) else if b in row then Some(row[b]) else None
  {
    assert [a, b][1..] == [b];
  }

  /** The two WKT groups found in the stripped WKT text `w`: the
      `POINT(...)` pattern first, then the first two decimal numbers;
      nothing when the text is blank. */
  function WktSearch(w: string): (r: Option<(string, string)>)
    ensures w == "" ==> r.None?
    ensures r.Some? ==> IsDecimalText(r.value.0) && IsDecimalText(r.value.1)
    ensures (exists q :: 0 <= q <= |w| && PointAt(w, q).Some?) ==>
      exists q :: 0 <= q <= |w| && r == PointAt(w, q) && forall q' :: 0 <= q' < q ==> PointAt(w, q').None?
    ensures (forall q :: 0 <= q <= |w| ==> PointAt(w, q).None?) && r.Some? ==>
      exists q :: 0 <= q <= |w| && r == PairAt(w, q) && forall q' :: 0 <= q' < q ==> PairAt(w, q').None?
    ensures r.Some? ==> exists q :: 0 <= q <= |w| && (r == PointAt(w, q) || r == PairAt(w, q))
    ensures w != "" && r.None? ==> forall q :: 0 <= q <= |w| ==> PointAt(w, q).None? && PairAt(w, q).None?
  {
    if w == "" then None
    else
      var m := Find(w, 0, PointAt);
      var r := if m.Some? then m else Find(w, 0, PairAt);
      FindEither(w, PointAt, PairAt, r);
      if r.Some? then
        var q :| 0 <= q <= |w| && (r == PointAt(w, q) || r == PairAt(w, q));
        GroupsAreDecimals(w, q);
        r
      else r
  }

  /** The WKT groups of a row. */
  function WktMatch(row: Row): Option<(string, string)>
  {
    WktSearch(WktText(row))
  }

  /** Searching with one pattern and, failing that, with another. */
  lemma FindEither(w: string, at1: (string, nat) -> Option<(string, string)>,
                   at2: (string, nat) -> Option<(string, string)>, r: Option<(string, string)>)
    requires r == (if Find(w, 0, at1).Some? then Find(w, 0, at1) else Find(w, 0, at2))
    ensures (exists q :: 0 <= q <= |w| && at1(w, q).Some?) ==>
      exists q :: 0 <= q <= |w| && r == at1(w, q) && forall q' :: 0 <= q' < q ==> at1(w, q').None?
    ensures (forall q :: 0 <= q <= |w| ==> at1(w, q).None?) && r.Some? ==>
      exists q :: 0 <= q <= |w| && r == at2(w, q) && forall q' :: 0 <= q' < q ==> at2(w, q').None?
    ensures r.Some? ==> exists q :: 0 <= q <= |w| && (r == at1(w, q) || r == at2(w, q))
    ensures r.None? ==> forall q :: 0 <= q <= |w| ==> at1(w, q).None? && at2(w, q).None?
  {
  }

  /** Why a row yields no vertex: both are the ValueError the loader skips. */
  datatype RowError = NoCoordinates | NotANumber(text: string)

  /** The latitude/longitude columns (`lat|latitude|y`, `lon|longitude|x`). */
  function ColumnCoordinates(row: Row, toFloat: string -> Option<real>): (r: Result<Coord, RowError>)
    ensures r == Err(NoCoordinates) <==>
      FirstFilled(row, ["lat", "latitude", "y"]).None? || FirstFilled(row, ["lon", "longitude", "x"]).None?
    ensures var lat, lon := FirstFilled(row, ["lat", "latitude", "y"]), FirstFilled(row, ["lon", "longitude", "x"]);
      r.Ok? <==> lat.Some? && lon.Some? && toFloat(lat.value).Some? && toFloat(lon.value).Some?
    ensures var lat, lon := FirstFilled(row, ["lat", "latitude", "y"]), FirstFilled(row, ["lon", "longitude", "x"]);
      r.Ok? ==> r.value == Coord(toFloat(lat.value).value, toFloat(lon.value).value)
    ensures var lat, lon := FirstFilled(row, ["lat", "latitude", "y"]), FirstFilled(row, ["lon", "longitude", "x"]);
      lat.Some? && lon.Some? && toFloat(lat.value).None? ==> r == Err(NotANumber(lat.value))
  {
    var lat := FirstFilled(row, ["lat", "latitude", "y"]);
    var lon := FirstFilled(row, ["lon", "longitude", "x"]);
    if lat.None? || lon.None? then Err(NoCoordinates)
    else
      match toFloat(lat.value)
      case None => Err(NotANumber(lat.value))
      case Some(y) =>
        match toFloat(lon.value)
        case None => Err(NotANumber(lon.value))
        case Some(x) => Ok(Coord(y, x))
  }

  /** `_parse_coordinate_row`. Python's `float` is the parameter `toFloat`,
      `None` where it raises ValueError. The WKT cell is tried before any
      latitude/longitude column: a match is read (lon, lat) and returned
      (lat, lon), whatever the other columns hold; without a match the row
      falls through to the columns, and only then can it lack coordinates. */
  function ParseCoordinateRow(row: Row, toFloat: string -> Option<real>): (r: Result<Coord, RowError>)
    ensures WktMatch(row).Some? ==>
      var (a, b) := WktMatch(row).value;
      (r.Ok? <==> toFloat(a).Some? && toFloat(b).Some?) &&
      (r.Ok? ==> r.value == Coord(toFloat(b).value, toFloat(a).value))
    ensures WktMatch(row).None? ==> r == ColumnCoordinates(row, toFloat)
    ensures r == Err(NoCoordinates) ==> WktMatch(row).None?
  {
    match WktMatch(row)
    case None => ColumnCoordinates(row, toFloat)
    case Some((a, b)) =>
      match toFloat(a)
      case None => Err(NotANumber(a))
      case Some(lon) =>
        match toFloat(b)
        case None => Err(NotANumber(b))
        case Some(lat) => Ok(Coord(lat, lon))
  }

  /** A blank WKT cell (missing, empty or all whitespace) is as good as no
      WKT column: the latitude/longitude columns decide. */
  lemma BlankWktFallsThrough(row: Row, toFloat: string -> Option<real>)
    requires forall key :: key in ["WKT", "wkt"] && key in row ==>
      forall k :: 0 <= k < |row[key]| ==> IsSpace(row[key][k])
    ensures ParseCoordinateRow(row, toFloat) == ColumnCoordinates(row, toFloat)
  {
    var v := FirstFilled(row, ["WKT", "wkt"]);
    if v.Some? && v.value != "" {
      var i :| 0 <= i < 2 && ["WKT", "wkt"][i] in row && row[["WKT", "wkt"][i]] == v.value;
      assert ["WKT", "wkt"][i] in ["WKT", "wkt"];
    }
    assert WktText(row) == "";
  }

  /** A row with a blank WKT cell whose latitude column `float` rejects
      raises ValueError, and the loader skips it. */
  lemma BadLatitudeSkipped(before: seq<Row>, row: Row, after: seq<Row>, toFloat: string -> Option<real>, lat: string)
    requires forall key :: key in ["WKT", "wkt"] && key in row ==>
      forall k :: 0 <= k < |row[key]| ==> IsSpace(row[key][k])
    requires FirstFilled(row, ["lat", "latitude", "y"]) == Some(lat) && toFloat(lat).None?
    requires FirstFilled(row, ["lon", "longitude", "x"]).Some?
    ensures ParseCoordinateRow(row, toFloat) == Err(NotANumber(lat))
    ensures ParsedPoints(before + [row] + after, RowParser(toFloat)) ==
      ParsedPoints(before, RowParser(toFloat)) + ParsedPoints(after, RowParser(toFloat))
  {
    BlankWktFallsThrough(row, toFloat);
    SkipsBadRow(before, row, after, RowParser(toFloat));
  }

  /** A decimal literal of the shape the WKT patterns accept, `-?\d+\.\d+`. */
  datatype Decimal = Decimal(negative: bool, whole: string, fraction: string)

  predicate ValidDecimal(d: Decimal)
  {
    |d.whole| > 0 && |d.fraction| > 0 &&
    (forall k :: 0 <= k < |d.whole| ==> IsDigit(d.whole[k])) &&
    (forall k :: 0 <= k < |d.fraction| ==> IsDigit(d.fraction[k]))
  }

  function DecimalText(d: Decimal): string
  {
    (if d.negative then "-" else "") + d.whole + "." + d.fraction
  }

  /** `t` is, in full, a literal `-?\d+\.\d+`. */
  ghost predicate IsDecimalText(t: string)
  {
    exists d :: ValidDecimal(d) && t == DecimalText(d)
  }

  /** `s` holds `t` from position `p` on. */
  predicate HoldsAt(s: string, p: nat, t: string)
  {
    p + |t| <= |s| && s[p..p + |t|] == t
  }

  lemma {:induction false} DigitsEndAt(s: string, p: nat, e: nat)
    requires p <= e <= |s|
    requires forall k :: p <= k < e ==> IsDigit(s[k])
    requires e < |s| ==> !IsDigit(s[e])
    ensures DigitsEnd(s, p) == e
    decreases e - p
  {
    if p < e {
      DigitsEndAt(s, p + 1, e);
    }
  }

  /** Where the sign, the digits and the dot of a decimal literal sit. */
  lemma DecimalLayout(s: string, p: nat, d: Decimal)
    requires ValidDecimal(d) && HoldsAt(s, p, DecimalText(d))
    ensures var q := p + (if d.negative then 1 else 0);
      var dot := q + |d.whole|;
      p < |s| && (s[p] == '-' <==> d.negative) &&
      dot < |s| && s[dot] == '.' &&
      (forall k :: q <= k < dot ==> IsDigit(s[k])) &&
      (forall k :: dot + 1 <= k < dot + 1 + |d.fraction| ==> IsDigit(s[k]))
  {
    var t := DecimalText(d);
    var q := p + (if d.negative then 1 else 0);
    assert s[p] == t[0];
    assert d.negative <==> s[p] == '-' by {
      if !d.negative { assert t[0] == d.whole[0]; }
    }
    var dot := q + |d.whole|;
    forall k | q <= k < dot ensures IsDigit(s[k]) {
      assert s[k] == t[k - p] == d.whole[k - q];
    }
    assert s[dot] == t[dot - p] == '.';
    forall k | dot + 1 <= k < dot + 1 + |d.fraction| ensures IsDigit(s[k]) {
      assert s[k] == t[k - p] == d.fraction[k - dot - 1];
    }
  }

  /** A decimal literal followed by a non-digit is matched whole. */
  lemma NumberAtDecimal(s: string, p: nat, d: Decimal)
    requires ValidDecimal(d) && HoldsAt(s, p, DecimalText(d))
    requires p + |DecimalText(d)| < |s| ==> !IsDigit(s[p + |DecimalText(d)|])
    ensures NumberAt(s, p) == Some(p + |DecimalText(d)|)
  {
    var q := p + (if d.negative then 1 else 0);
    var dot := q + |d.whole|;
    DecimalLayout(s, p, d);
    DigitsEndAt(s, q, dot);
    DigitsEndAt(s, dot + 1, dot + 1 + |d.fraction|);
  }

  lemma FirstHeld(s: string, p: nat, t: string)
    requires HoldsAt(s, p, t) && t != []
    ensures s[p] == t[0]
  {
    assert s[p + 0] == t[0];
  }

  /** In a text that starts with `pre + t`, `t` sits right after `pre`. */
  lemma Piece(s: string, pre: string, t: string)
    requires pre + t <= s
    ensures HoldsAt(s, |pre|, t) && s[|pre|..|pre| + |t|] == t
  {
    forall k | 0 <= k < |t| ensures s[|pre| + k] == t[k] {
      assert s[|pre| + k] == (pre + t)[|pre| + k];
    }
  }

  /** A text that starts with `x + y` starts with `x`. */
  lemma ShorterPrefix(x: string, y: string, s: string)
    requires x + y <= s
    ensures x <= s
  {
    forall k | 0 <= k < |x| ensures x[k] == s[k] {
      assert x[k] == (x + y)[k];
    }
  }

  lemma {:induction false} SpacesEndAt(s: string, p: nat, e: nat)
    requires p <= e <= |s|
    requires forall k :: p <= k < e ==> IsSpace(s[k])
    requires e < |s| ==> !IsSpace(s[e])
    ensures SpacesEnd(s, p) == e
    decreases e - p
  {
    if p < e {
      SpacesEndAt(s, p + 1, e);
    }
  }

  /** Whitespace `w` at `p`, followed by a non-space, is what `\s*` consumes. */
  lemma SpacesOver(s: string, p: nat, w: string)
    requires HoldsAt(s, p, w) && AllSpace(w)
    requires p + |w| < |s| && !IsSpace(s[p + |w|])
    ensures SpacesEnd(s, p) == p + |w|
  {
    forall k | p <= k < p + |w| ensures IsSpace(s[k]) {
      assert s[k] == w[k - p];
    }
    SpacesEndAt(s, p, p + |w|);
  }

  /** A non-empty run of commas and whitespace, what `[,\s]+` accepts. */
  predicate SeparatorRun(w: string)
  {
    w != [] && forall k :: 0 <= k < |w| ==> IsSeparator(w[k])
  }

  lemma {:induction false} SeparatorsEndAt(s: string, p: nat, e: nat)
    requires p <= e <= |s|
    requires forall k :: p <= k < e ==> IsSeparator(s[k])
    requires e < |s| ==> !IsSeparator(s[e])
    ensures SeparatorsEnd(s, p) == e
    decreases e - p
  {
    if p < e {
      SeparatorsEndAt(s, p + 1, e);
    }
  }

  /** A separator run `w` at `p`, followed by a non-separator, is what
      `[,\s]+` consumes. */
  lemma SeparatorsOver(s: string, p: nat, w: string)
    requires HoldsAt(s, p, w) && SeparatorRun(w)
    requires p + |w| < |s| && !IsSeparator(s[p + |w|])
    ensures SeparatorsEnd(s, p) == p + |w|
  {
    forall k | p <= k < p + |w| ensures IsSeparator(s[k]) {
      assert s[k] == w[k - p];
    }
    SeparatorsEndAt(s, p, p + |w|);
  }

  /** A decimal literal starts with `-` or a digit and ends with a digit. */
  lemma DecimalEdges(d: Decimal)
    requires ValidDecimal(d)
    ensures var t := DecimalText(d);
      |t| > 1 && (t[0] == '-' || IsDigit(t[0])) && IsDigit(t[|t| - 1])
  {
    var t := DecimalText(d);
    if !d.negative {
      assert t[0] == d.whole[0];
    }
    assert t[|t| - 1] == d.fraction[|d.fraction| - 1];
  }

  /** The characters a decimal literal and the fallback separator use. */
  predicate NumericChar(c: char)
  {
    IsDigit(c) || c == '-' || c == '.' || IsSeparator(c)
  }

  lemma DecimalChars(d: Decimal)
    requires ValidDecimal(d)
    ensures forall k :: 0 <= k < |DecimalText(d)| ==> NumericChar(DecimalText(d)[k])
  {
    var sign := if d.negative then "-" else "";
    assert DecimalText(d) == sign + d.whole + "." + d.fraction;
  }

  /** The POINT pattern's steps, each found to succeed, give its match at
      the start of the text. */
  lemma PointAtSteps(s: string, a: nat, b: nat, c: nat, d: nat, e: nat, f: nat)
    requires 5 <= |s| && SameIgnoringCase(s[0..5], "point")
    requires SpacesEnd(s, 5) == a && a < |s| && s[a] == '('
    requires SpacesEnd(s, a + 1) == b && NumberAt(s, b) == Some(c)
    requires SpacesEnd(s, c) == d && d != c && NumberAt(s, d) == Some(e)
    requires SpacesEnd(s, e) == f && f < |s| && s[f] == ')'
    ensures PointAt(s, 0) == Some((s[b..c], s[d..e]))
  {
  }

  /** The POINT pattern matches text made of the keyword `point` in any
      letter case, optional whitespace, `(`, optional whitespace, a decimal,
      whitespace, a decimal, optional whitespace and `)`, whatever follows;
      its groups are the two decimals. */
  lemma PointAtSpaced(s: string, kw: string, w1: string, w2: string, d1: Decimal, w3: string, d2: Decimal,
                      w4: string, rest: string)
    requires Lower(kw) == "point"
    requires AllSpace(w1) && AllSpace(w2) && AllSpace(w3) && w3 != [] && AllSpace(w4)
    requires ValidDecimal(d1) && ValidDecimal(d2)
    requires s == kw + w1 + "(" + w2 + DecimalText(d1) + w3 + DecimalText(d2) + w4 + ")" + rest
    ensures PointAt(s, 0) == Some((DecimalText(d1), DecimalText(d2)))
  {
    var t1, t2 := DecimalText(d1), DecimalText(d2);
    var a := 5 + |w1|;
    var b := a + 1 + |w2|;
    var c := b + |t1|;
    var d := c + |w3|;
    var e := d + |t2|;
    var f := e + |w4|;
    var p1 := kw + w1;
    var p2 := p1 + "(";
    var p3 := p2 + w2;
    var p4 := p3 + t1;
    var p5 := p4 + w3;
    var p6 := p5 + t2;
    var p7 := p6 + w4;
    var p8 := p7 + ")";
    assert p8 + rest <= s;
    ShorterPrefix(p8, rest, s);
    ShorterPrefix(p7, ")", s);
    ShorterPrefix(p6, w4, s);
    ShorterPrefix(p5, t2, s);
    ShorterPrefix(p4, w3, s);
    ShorterPrefix(p3, t1, s);
    ShorterPrefix(p2, w2, s);
    ShorterPrefix(p1, "(", s);
    Piece(s, [], kw);
    Piece(s, kw, w1);
    Piece(s, p1, "(");
    Piece(s, p2, w2);
    Piece(s, p3, t1);
    Piece(s, p4, w3);
    Piece(s, p5, t2);
    Piece(s, p6, w4);
    Piece(s, p7, ")");
    assert s[0..5] == kw;
    SameIgnoringCaseLower(kw, "point");
    PointAtPieces(s, w1, w2, t1, d1, w3, t2, d2, w4, a, b, c, d, e, f);
  }

  /** The POINT pattern on a text that holds its parts at positions
      `a`..`f`, laid out as PointAtSpaced lays them out. */
  lemma PointAtPieces(s: string, w1: string, w2: string, t1: string, n1: Decimal, w3: string,
                      t2: string, n2: Decimal, w4: string, a: nat, b: nat, c: nat, d: nat, e: nat, f: nat)
    requires 5 <= |s| && SameIgnoringCase(s[0..5], "point")
    requires AllSpace(w1) && AllSpace(w2) && AllSpace(w3) && w3 != [] && AllSpace(w4)
    requires ValidDecimal(n1) && ValidDecimal(n2) && t1 == DecimalText(n1) && t2 == DecimalText(n2)
    requires a == 5 + |w1| && b == a + 1 + |w2| && c == b + |t1| && d == c + |w3| && e == d + |t2| && f == e + |w4|
    requires HoldsAt(s, 5, w1) && HoldsAt(s, a, "(") && HoldsAt(s, a + 1, w2) && HoldsAt(s, b, t1)
    requires HoldsAt(s, c, w3) && HoldsAt(s, d, t2) && HoldsAt(s, e, w4) && HoldsAt(s, f, ")")
    ensures PointAt(s, 0) == Some((t1, t2))
  {
    OpeningSteps(s, w1, w2, t1, n1, w3, a, b, c);
    ClosingSteps(s, w3, t2, n2, w4, c, d, e, f);
    PointAtSteps(s, a, b, c, d, e, f);
  }

  /** From the end of the keyword: whitespace, `(`, whitespace and the
      first group `t` are consumed step by step. */
  lemma OpeningSteps(s: string, w1: string, w2: string, t: string, n: Decimal, w3: string, a: nat, b: nat, c: nat)
    requires AllSpace(w1) && AllSpace(w2) && ValidDecimal(n) && t == DecimalText(n) && w3 != [] && AllSpace(w3)
    requires a == 5 + |w1| && b == a + 1 + |w2| && c == b + |t|
    requires HoldsAt(s, 5, w1) && HoldsAt(s, a, "(") && HoldsAt(s, a + 1, w2) && HoldsAt(s, b, t) && HoldsAt(s, c, w3)
    ensures SpacesEnd(s, 5) == a && a < |s| && s[a] == '('
    ensures SpacesEnd(s, a + 1) == b && NumberAt(s, b) == Some(c) && s[b..c] == t
  {
    FirstHeld(s, a, "(");
    FirstHeld(s, c, w3);
    SpacesOver(s, 5, w1);
    SpacedNumber(s, a + 1, w2, t, n, b, c);
  }

  /** After the first group of the POINT pattern, at `c`: whitespace, the
      second group `t`, whitespace and `)` are consumed step by step. */
  lemma ClosingSteps(s: string, w3: string, t: string, n: Decimal, w4: string, c: nat, d: nat, e: nat, f: nat)
    requires AllSpace(w3) && AllSpace(w4) && ValidDecimal(n) && t == DecimalText(n)
    requires d == c + |w3| && e == d + |t| && f == e + |w4|
    requires HoldsAt(s, c, w3) && HoldsAt(s, d, t) && HoldsAt(s, e, w4) && HoldsAt(s, f, ")")
    ensures SpacesEnd(s, c) == d && NumberAt(s, d) == Some(e) && s[d..e] == t
    ensures SpacesEnd(s, e) == f && f < |s| && s[f] == ')'
  {
    FirstHeld(s, f, ")");
    if w4 != [] {
      FirstHeld(s, e, w4);
    }
    SpacedNumber(s, c, w3, t, n, d, e);
    SpacesOver(s, e, w4);
  }

  /** Whitespace `w` at `p` and then a decimal `t` at `q`, not followed by a
      digit at `r`: `\s*` stops at the decimal, which `-?\d+\.\d+` matches
      whole. */
  lemma SpacedNumber(s: string, p: nat, w: string, t: string, n: Decimal, q: nat, r: nat)
    requires AllSpace(w) && ValidDecimal(n) && t == DecimalText(n)
    requires q == p + |w| && r == q + |t|
    requires HoldsAt(s, p, w) && HoldsAt(s, q, t)
    requires r < |s| ==> !IsDigit(s[r])
    ensures SpacesEnd(s, p) == q && NumberAt(s, q) == Some(r) && s[q..r] == t
  {
    DecimalEdges(n);
    FirstHeld(s, q, t);
    SpacesOver(s, p, w);
    NumberAtDecimal(s, q, n);
  }

  /** Whatever the POINT pattern matches at `p` has the layout
      PointAtSpaced describes: the keyword, a whitespace run, `(` at `a`, a
      whitespace run, the first group, a non-empty whitespace run, the second
      group, a whitespace run and `)` at `f`. */
  lemma PointAtShape(s: string, p: nat) returns (a: nat, b: nat, c: nat, d: nat, e: nat, f: nat)
    requires PointAt(s, p).Some?
    ensures SameIgnoringCase(s[p..p + 5], "point")
    ensures p + 5 <= a < b <= c < d <= e <= f < |s| && s[a] == '(' && s[f] == ')'
    ensures AllSpace(s[p + 5..a]) && AllSpace(s[a + 1..b]) && AllSpace(s[c..d]) && AllSpace(s[e..f])
    ensures PointAt(s, p).value == (s[b..c], s[d..e])
  {
    a := SpacesEnd(s, p + 5);
    SpacesSlice(s, p + 5);
    b, c, d, e, f := PointOpenShape(s, a);
  }

  /** The ends of the parts of a match of the POINT pattern from `\(` on. */
  lemma PointOpenShape(s: string, a: nat) returns (b: nat, c: nat, d: nat, e: nat, f: nat)
    requires a <= |s| && PointOpen(s, a).Some?
    ensures a < b <= c < d <= e <= f < |s| && s[a] == '(' && s[f] == ')'
    ensures AllSpace(s[a + 1..b]) && AllSpace(s[c..d]) && AllSpace(s[e..f])
    ensures PointOpen(s, a).value == (s[b..c], s[d..e])
  {
    b := SpacesEnd(s, a + 1);
    SpacesSlice(s, a + 1);
    c, d, e, f := PointFirstShape(s, b);
  }

  /** The ends of the parts of a match of the POINT pattern from its first
      group on. */
  lemma PointFirstShape(s: string, b: nat) returns (c: nat, d: nat, e: nat, f: nat)
    requires b <= |s| && PointFirst(s, b).Some?
    ensures b < c < d <= e <= f < |s| && s[f] == ')'
    ensures AllSpace(s[c..d]) && AllSpace(s[e..f])
    ensures PointFirst(s, b).value == (s[b..c], s[d..e])
  {
    c := NumberAt(s, b).value;
    d := SpacesEnd(s, c);
    e := NumberAt(s, d).value;
    f := SpacesEnd(s, e);
    SpacesSlice(s, c);
    SpacesSlice(s, e);
  }

  /** The text `\s*` consumes from `p` is all whitespace. */
  lemma SpacesSlice(s: string, p: nat)
    requires p <= |s|
    ensures AllSpace(s[p..SpacesEnd(s, p)])
  {
    SpacesEndRun(s, p);
  }

  /** The fallback pattern matches a decimal, a run of commas and
      whitespace, and a decimal not followed by a digit; its groups are the
      two decimals. */
  lemma PairAtLayout(d1: Decimal, sep: string, d2: Decimal, rest: string)
    requires ValidDecimal(d1) && ValidDecimal(d2) && SeparatorRun(sep)
    requires rest != [] ==> !IsDigit(rest[0])
    ensures PairAt(DecimalText(d1) + sep + DecimalText(d2) + rest, 0) == Some((DecimalText(d1), DecimalText(d2)))
  {
    var t1, t2 := DecimalText(d1), DecimalText(d2);
    var s := t1 + sep + t2 + rest;
    DecimalEdges(d1);
    DecimalEdges(d2);
    var p1 := t1 + sep;
    var p2 := p1 + t2;
    ShorterPrefix(p2, rest, s);
    ShorterPrefix(p1, t2, s);
    Piece(s, [], t1);
    Piece(s, t1, sep);
    Piece(s, p1, t2);
    Piece(s, p2, rest);
    PairAtPieces(s, t1, d1, sep, t2, d2, |t1|, |t1| + |sep|, |t1| + |sep| + |t2|);
  }

  /** The fallback pattern on a text that holds its parts at the places
      PairAtLayout lays them out: `t1` at 0, `sep` at `c`, `t2` at `d`. */
  lemma PairAtPieces(s: string, t1: string, n1: Decimal, sep: string, t2: string, n2: Decimal, c: nat, d: nat, e: nat)
    requires ValidDecimal(n1) && ValidDecimal(n2) && t1 == DecimalText(n1) && t2 == DecimalText(n2) && SeparatorRun(sep)
    requires c == |t1| && d == c + |sep| && e == d + |t2|
    requires HoldsAt(s, 0, t1) && HoldsAt(s, c, sep) && HoldsAt(s, d, t2)
    requires e < |s| ==> !IsDigit(s[e])
    ensures PairAt(s, 0) == Some((t1, t2))
  {
    DecimalEdges(n1);
    DecimalEdges(n2);
    FirstHeld(s, c, sep);
    FirstHeld(s, d, t2);
    NumberAtDecimal(s, 0, n1);
    SeparatorsOver(s, c, sep);
    NumberAtDecimal(s, d, n2);
    PairAtSteps(s, 0, c, d, e);
  }

  /** The fallback pattern's steps, each found to succeed, give its match. */
  lemma PairAtSteps(s: string, p: nat, c: nat, d: nat, e: nat)
    requires p <= |s| && NumberAt(s, p) == Some(c)
    requires SeparatorsEnd(s, c) == d && d != c && NumberAt(s, d) == Some(e)
    ensures PairAt(s, p) == Some((s[p..c], s[d..e]))
  {
  }

  /** Whatever the fallback pattern matches is its first group, a separator
      run and its second group, and no digit follows. */
  lemma PairAtShape(s: string, p: nat)
    requires PairAt(s, p).Some?
    ensures var (g1, g2) := PairAt(s, p).value;
      exists sep :: SeparatorRun(sep) && p + |g1 + sep + g2| <= |s| &&
        s[p..p + |g1 + sep + g2|] == g1 + sep + g2 &&
        (p + |g1 + sep + g2| < |s| ==> !IsDigit(s[p + |g1 + sep + g2|]))
  {
    var c := NumberAt(s, p).value;
    var d := SeparatorsEnd(s, c);
    var e := NumberAt(s, d).value;
    var sep := s[c..d];
    SeparatorsEndRun(s, c);
    assert s[p..e] == s[p..c] + sep + s[d..e];
  }

  /** Text without a `p` or `P` holds no match of the POINT pattern. */
  lemma NoPointKeyword(s: string)
    requires forall k :: 0 <= k < |s| ==> s[k] != 'p' && s[k] != 'P'
    ensures forall q :: 0 <= q <= |s| ==> PointAt(s, q).None?
  {
    forall q | 0 <= q <= |s| ensures PointAt(s, q).None? {
      if q + 5 <= |s| {
        assert s[q..q + 5][0] == s[q];
      }
    }
  }

  /** The canonical WKT text of a point, `POINT(lon lat)`. */
  function PointText(lon: string, lat: string): string
  {
    "POINT(" + lon + " " + lat + ")"
  }

  /** Formatting two decimals as the canonical `POINT(a b)` and matching the
      pattern gives the two decimals back, `a` first. */
  lemma PointPatternRoundTrip(lonText: Decimal, latText: Decimal)
    requires ValidDecimal(lonText) && ValidDecimal(latText)
    ensures PointAt(PointText(DecimalText(lonText), DecimalText(latText)), 0)
      == Some((DecimalText(lonText), DecimalText(latText)))
  {
    var t1, t2 := DecimalText(lonText), DecimalText(latText);
    assert Lower("POINT") == "point";
    assert PointText(t1, t2) == "POINT" + "" + "(" + "" + t1 + " " + t2 + "" + ")" + "";
    PointAtSpaced(PointText(t1, t2), "POINT", "", "", lonText, " ", latText, "", "");
  }

  /** A row whose WKT cell is the canonical `POINT(lon lat)` yields the
      vertex (lat, lon), whatever its latitude/longitude columns say. */
  lemma WktRowRoundTrip(row: Row, lonText: Decimal, latText: Decimal, toFloat: string -> Option<real>, lat: real, lon: real)
    requires ValidDecimal(lonText) && ValidDecimal(latText)
    requires "WKT" in row && row["WKT"] == PointText(DecimalText(lonText), DecimalText(latText))
    requires toFloat(DecimalText(lonText)) == Some(lon) && toFloat(DecimalText(latText)) == Some(lat)
    ensures ParseCoordinateRow(row, toFloat) == Ok(Coord(lat, lon))
  {
    var t1, t2 := DecimalText(lonText), DecimalText(latText);
    var s := PointText(t1, t2);
    assert FirstFilled(row, ["WKT", "wkt"]) == Some(s);
    StripUnchanged(s);
    assert WktText(row) == s;
    PointPatternRoundTrip(lonText, latText);
    assert Find(s, 0, PointAt) == Some((t1, t2));
  }

  /** The boundary file's WKT convention: `POINT(37.150 -0.748)` is the
      vertex at latitude -0.748, longitude 37.150. */
  lemma WktExample(row: Row, toFloat: string -> Option<real>)
    requires "WKT" in row && row["WKT"] == "POINT(37.150 -0.748)"
    requires toFloat("37.150") == Some(37.15) && toFloat("-0.748") == Some(-0.748)
    ensures ParseCoordinateRow(row, toFloat) == Ok(Coord(-0.748, 37.15))
  {
    var lonText, latText := Decimal(false, "37", "150"), Decimal(true, "0", "748");
    assert DecimalText(lonText) == "37.150";
    assert DecimalText(latText) == "-0.748";
    assert PointText("37.150", "-0.748") == "POINT(37.150 -0.748)";
    WktRowRoundTrip(row, lonText, latText, toFloat, -0.748, 37.15);
  }

  /** A row whose WKT cell is two decimals joined by commas and whitespace,
      with no POINT keyword, falls back to the second pattern: the first
      decimal is the longitude and the second the latitude. */
  lemma WktPairRow(row: Row, d1: Decimal, sep: string, d2: Decimal, toFloat: string -> Option<real>, lat: real, lon: real)
    requires ValidDecimal(d1) && ValidDecimal(d2) && SeparatorRun(sep)
    requires "WKT" in row && row["WKT"] == DecimalText(d1) + sep + DecimalText(d2)
    requires toFloat(DecimalText(d1)) == Some(lon) && toFloat(DecimalText(d2)) == Some(lat)
    ensures ParseCoordinateRow(row, toFloat) == Ok(Coord(lat, lon))
  {
    PairTextStrips(d1, sep, d2);
    PairSearch(d1, sep, d2);
    assert WktText(row) == row["WKT"];
  }

  /** The WKT search on two decimals joined by a separator run finds the
      two decimals, in order, with the fallback pattern. */
  lemma PairSearch(d1: Decimal, sep: string, d2: Decimal)
    requires ValidDecimal(d1) && ValidDecimal(d2) && SeparatorRun(sep)
    ensures WktSearch(DecimalText(d1) + sep + DecimalText(d2)) == Some((DecimalText(d1), DecimalText(d2)))
  {
    var t1, t2 := DecimalText(d1), DecimalText(d2);
    var s := t1 + sep + t2;
    PairTextHasNoPoint(d1, sep, d2);
    assert Find(s, 0, PointAt).None?;
    PairAtLayout(d1, sep, d2, []);
    assert s + [] == s;
    assert Find(s, 0, PairAt) == Some((t1, t2));
  }

  /** Two decimals joined by a separator run neither start nor end with
      whitespace. */
  lemma PairTextStrips(d1: Decimal, sep: string, d2: Decimal)
    requires ValidDecimal(d1) && ValidDecimal(d2)
    ensures DecimalText(d1) + sep + DecimalText(d2) != []
    ensures Strip(DecimalText(d1) + sep + DecimalText(d2)) == DecimalText(d1) + sep + DecimalText(d2)
  {
    var t1, t2 := DecimalText(d1), DecimalText(d2);
    var s := t1 + sep + t2;
    DecimalEdges(d1);
    DecimalEdges(d2);
    assert s[0] == t1[0];
    assert s[|s| - 1] == t2[|t2| - 1];
    StripUnchanged(s);
  }

  /** Two decimals joined by a separator run hold no POINT match. */
  lemma PairTextHasNoPoint(d1: Decimal, sep: string, d2: Decimal)
    requires ValidDecimal(d1) && ValidDecimal(d2) && SeparatorRun(sep)
    ensures forall q :: 0 <= q <= |DecimalText(d1) + sep + DecimalText(d2)| ==>
      PointAt(DecimalText(d1) + sep + DecimalText(d2), q).None?
  {
    var t1, t2 := DecimalText(d1), DecimalText(d2);
    var s := t1 + sep + t2;
    DecimalChars(d1);
    DecimalChars(d2);
    forall k | 0 <= k < |s| ensures NumericChar(s[k]) {
      if k < |t1| {
        assert s[k] == t1[k];
      } else if k < |t1| + |sep| {
        assert s[k] == sep[k - |t1|];
      } else {
        assert s[k] == t2[k - |t1| - |sep|];
      }
    }
    NoPointKeyword(s);
  }

  /** A WKT cell without the POINT keyword, `36.1, -0.7`, is read as
      longitude 36.1, latitude -0.7. */
  lemma WktPairExample(row: Row, toFloat: string -> Option<real>)
    requires "WKT" in row && row["WKT"] == "36.1, -0.7"
    requires toFloat("36.1") == Some(36.1) && toFloat("-0.7") == Some(-0.7)
    ensures ParseCoordinateRow(row, toFloat) == Ok(Coord(-0.7, 36.1))
  {
    var d1, d2 := Decimal(false, "36", "1"), Decimal(true, "0", "7");
    assert DecimalText(d1) == "36.1";
    assert DecimalText(d2) == "-0.7";
    assert SeparatorRun(", ") by {
      assert IsSeparator(", "[0]) && IsSeparator(", "[1]);
    }
    assert "36.1" + ", " + "-0.7" == "36.1, -0.7";
    WktPairRow(row, d1, ", ", d2, toFloat, -0.7, 36.1);
  }

  /** The vertex a row contributes: its point, or nothing when it raises. */
  function PointOf(parse: Row -> Result<Coord, RowError>, row: Row): (r: seq<Coord>)
    ensures |r| <= 1
    ensures r == [] <==> parse(row).Err?
  {
    match parse(row)
    case Ok(c) => [c]
    case Err(_) => []
  }

  /** The points of the rows that parse, in row order. The loop below is
      stated for any row parser `parse`; the loader uses ParseCoordinateRow. */
  function ParsedPoints(rows: seq<Row>, parse: Row -> Result<Coord, RowError>): seq<Coord>
  {
    if rows == [] then []
    else ParsedPoints(rows[..|rows| - 1], parse) + PointOf(parse, rows[|rows| - 1])
  }

  lemma ParsedPointsSnoc(rows: seq<Row>, row: Row, parse: Row -> Result<Coord, RowError>)
    ensures ParsedPoints(rows + [row], parse) == ParsedPoints(rows, parse) + PointOf(parse, row)
  {
    assert (rows + [row])[..|rows|] == rows;
  }

  lemma {:induction false} ParsedPointsAppend(a: seq<Row>, b: seq<Row>, parse: Row -> Result<Coord, RowError>)
    ensures ParsedPoints(a + b, parse) == ParsedPoints(a, parse) + ParsedPoints(b, parse)
    decreases |b|
  {
    if b == [] {
      assert a + b == a;
    } else {
      var init, last := b[..|b| - 1], b[|b| - 1];
      calc {
        ParsedPoints(a + b, parse);
        { assert a + b == (a + init) + [last]; }
        ParsedPoints((a + init) + [last], parse);
        { ParsedPointsSnoc(a + init, last, parse); }
        ParsedPoints(a + init, parse) + PointOf(parse, last);
        { ParsedPointsAppend(a, init, parse); }
        ParsedPoints(a, parse) + ParsedPoints(init, parse) + PointOf(parse, last);
        { assert b == init + [last]; ParsedPointsSnoc(init, last, parse); }
        ParsedPoints(a, parse) + ParsedPoints(b, parse);
      }
    }
  }

  /** A row that does not parse is skipped and the rows after it still load. */
  lemma SkipsBadRow(before: seq<Row>, bad: Row, after: seq<Row>, parse: Row -> Result<Coord, RowError>)
    requires parse(bad).Err?
    ensures ParsedPoints(before + [bad] + after, parse) ==
      ParsedPoints(before, parse) + ParsedPoints(after, parse)
  {
    var withBad := before + [bad];
    ParsedPointsAppend(withBad, after, parse);
    assert withBad[..|withBad| - 1] == before;
    assert ParsedPoints(withBad, parse) == ParsedPoints(before, parse) + PointOf(parse, bad);
  }

  /** A point is loaded exactly when some row parses to it. */
  lemma {:induction false} ParsedPointsMembers(rows: seq<Row>, parse: Row -> Result<Coord, RowError>, c: Coord)
    ensures c in ParsedPoints(rows, parse) <==> exists k :: 0 <= k < |rows| && parse(rows[k]) == Ok(c)
  {
    if rows != [] {
      var init, last := rows[..|rows| - 1], rows[|rows| - 1];
      ParsedPointsMembers(init, parse, c);
      assert c in ParsedPoints(rows, parse) <==> c in ParsedPoints(init, parse) || c in PointOf(parse, last);
      if exists k :: 0 <= k < |rows| && parse(rows[k]) == Ok(c) {
        var k :| 0 <= k < |rows| && parse(rows[k]) == Ok(c);
        if k < |init| {
          assert init[k] == rows[k];
        }
      }
      if exists k :: 0 <= k < |init| && parse(init[k]) == Ok(c) {
        var k :| 0 <= k < |init| && parse(init[k]) == Ok(c);
        assert rows[k] == init[k];
      }
    }
  }

  /** When every row parses, the ring is the rows' points in row order. */
  lemma {:induction false} ParsedPointsAllRows(rows: seq<Row>, parse: Row -> Result<Coord, RowError>)
    requires forall k :: 0 <= k < |rows| ==> parse(rows[k]).Ok?
    ensures |ParsedPoints(rows, parse)| == |rows|
    ensures forall k :: 0 <= k < |rows| ==> ParsedPoints(rows, parse)[k] == parse(rows[k]).value
  {
    if rows != [] {
      var init := rows[..|rows| - 1];
      assert forall k :: 0 <= k < |init| ==> init[k] == rows[k];
      ParsedPointsAllRows(init, parse);
    }
  }

  /** `_parse_coordinate_row` as the loader applies it to each row. */
  function RowParser(toFloat: string -> Option<real>): Row -> Result<Coord, RowError>
  {
    row => ParseCoordinateRow(row, toFloat)
  }

  lemma ParsedPointsStep(rows: seq<Row>, k: nat, parse: Row -> Result<Coord, RowError>)
    requires k < |rows|
    ensures ParsedPoints(rows[..k + 1], parse) == ParsedPoints(rows[..k], parse) + PointOf(parse, rows[k])
  {
    assert rows[..k + 1][..k] == rows[..k];
  }

  /** `load_campus_boundary` from the decoded rows on; `None` is a missing
      file. Valid rows are appended in order, the others skipped. */
  method LoadCampusBoundary(file: Option<seq<Row>>, toFloat: string -> Option<real>) returns (poly: seq<Coord>)
    ensures file.None? ==> poly == []
    ensures file.Some? ==> poly == ParsedPoints(file.value, RowParser(toFloat))
  {
    poly := [];
    if file.None? {
      return;
    }
    var rows := file.value;
    var parse := RowParser(toFloat);
    for k := 0 to |rows|
      invariant poly == ParsedPoints(rows[..k], parse)
    {
      ParsedPointsStep(rows, k, parse);
      match parse(rows[k]) {
        case Ok(c) => poly := poly + [c];
        case Err(_) =>
      }
    }
    assert rows[..|rows|] == rows;
  }
}
