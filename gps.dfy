/**
 * `dms_to_decimal` and `extract_gps_info`: the GPS attribute tags of an
 * image's EXIF block (Exif 2.3, CIPA DC-008, section 4.6.6) turned into a
 * location record with decimal coordinates, map links, a signed altitude,
 * the GPS date and a zero-padded UTC time, or into a one-key error record.
 */
module Gps {
  import opened Wrappers
  import opened PyText
  import opened PyNumbers
  import opened ExifValues

  /** One entry of the EXIF block, with its tag number already looked up in
      Pillow's tag-name table. */
  datatype ExifTag = ExifTag(name: string, value: TagValue)

  /* ---------------- dms_to_decimal ---------------- */

  /** `(degrees, minutes, seconds)` converted to signed decimal degrees,
      rounded to eight decimals; `None` where unpacking or the arithmetic
      raises (not exactly three items, or an item that is not a number). */
  function DmsToDecimal(dms: TagValue, ref: TagValue): (r: Option<real>)
    ensures r.Some? ==> OnGrid(r.value, 8)
  {
    match Items(dms)
    case None => None
    case Some(parts) =>
      if |parts| == 3 && IsNumber(parts[0]) && IsNumber(parts[1]) && IsNumber(parts[2]) then
        var decimal := NumberOf(parts[0]).value + NumberOf(parts[1]).value / 60.0
                       + NumberOf(parts[2]).value / 3600.0;
        Some(RoundTo(if IsSouthOrWest(ref) then -decimal else decimal, 8))
      else None
  }

  /** The unrounded value `d + m/60 + s/3600` of a triple of numbers. */
  function DmsValue(parts: seq<TagValue>): real
    requires |parts| == 3 && IsNumber(parts[0]) && IsNumber(parts[1]) && IsNumber(parts[2])
  {
    NumberOf(parts[0]).value + NumberOf(parts[1]).value / 60.0 + NumberOf(parts[2]).value / 3600.0
  }

  /** A value that cannot be unpacked into three numbers yields `None`; three
      numbers yield their value within half a unit of the eighth decimal,
      negated exactly when the reference is `S` or `W`. */
  lemma DmsToDecimalSpec(dms: TagValue, ref: TagValue)
    ensures DmsToDecimal(dms, ref).Some? <==>
              Items(dms).Some? && |Items(dms).value| == 3
              && IsNumber(Items(dms).value[0]) && IsNumber(Items(dms).value[1])
              && IsNumber(Items(dms).value[2])
    ensures DmsToDecimal(dms, ref).Some? ==>
              var x := DmsValue(Items(dms).value);
              var r := DmsToDecimal(dms, ref).value;
              if IsSouthOrWest(ref)
              then -0.5 <= (r + x) * Scale(8) <= 0.5
              else -0.5 <= (r - x) * Scale(8) <= 0.5
  {
    if DmsToDecimal(dms, ref).Some? {
      var x := DmsValue(Items(dms).value);
      if IsSouthOrWest(ref) {
        assert DmsToDecimal(dms, ref).value == RoundTo(-x, 8);
        assert (RoundTo(-x, 8) - -x) == RoundTo(-x, 8) + x;
      }
    }
  }

  /** An `S` or `W` reference gives exactly the negation of the northern or
      eastern value; any other reference gives the northern or eastern one. */
  lemma {:induction false} DmsHemisphere(dms: TagValue, ref: TagValue)
    ensures var north := DmsToDecimal(dms, Text("N"));
            IsSouthOrWest(ref)
            ==> DmsToDecimal(dms, ref) == (if north.Some? then Some(-north.value) else None)
    ensures !IsSouthOrWest(ref) ==> DmsToDecimal(dms, ref) == DmsToDecimal(dms, Text("N"))
  {
    if IsSouthOrWest(ref) && DmsToDecimal(dms, ref).Some? {
      RoundToNeg(DmsValue(Items(dms).value), 8);
    }
  }

  /** With no hemisphere letter the default `N` or `E` applies, so three
      non-negative numbers give a non-negative coordinate. */
  lemma DmsDefaultNonNegative(dms: TagValue)
    requires Items(dms).Some? && |Items(dms).value| == 3
    requires forall k :: 0 <= k < 3 ==>
               IsNumber(Items(dms).value[k]) && NumberOf(Items(dms).value[k]).value >= 0.0
    ensures DmsToDecimal(dms, Text("N")).Some? && DmsToDecimal(dms, Text("N")).value >= 0.0
    ensures DmsToDecimal(dms, Text("E")) == DmsToDecimal(dms, Text("N"))
  {
    var parts := Items(dms).value;
    assert IsNumber(parts[0]) && IsNumber(parts[1]) && IsNumber(parts[2]);
    assert NumberOf(parts[0]).value >= 0.0 && NumberOf(parts[1]).value >= 0.0
           && NumberOf(parts[2]).value >= 0.0;
    RoundToNonNeg(DmsValue(parts), 8);
  }

  /** Whole degrees convert exactly: the eight-decimal rounding leaves an
      integer unchanged. */
  lemma DmsWholeDegrees(d: int, ref: TagValue)
    ensures DmsToDecimal(Tuple([IntVal(d), IntVal(0), IntVal(0)]), ref)
            == Some(if IsSouthOrWest(ref) then -(d as real) else d as real)
  {
    var x := if IsSouthOrWest(ref) then -(d as real) else d as real;
    var n := if IsSouthOrWest(ref) then -d else d;
    assert x == n as real;
    IntMulAsReal(n, Pow10(8));
    RoundHalfEvenInt(n * Pow10(8));
    RoundToOnGrid(x, 8);
  }

  /* ---------------- collecting the GPS tags ---------------- */

  /** The `(name, value)` pairs `for key in value: gps_info[name] = value[key]`
      stores for a `GPSInfo` value, or `None` for every other value: a number
      (not iterable, so the loop raises `TypeError`), a non-empty string (it
      cannot be indexed by its own characters), and a non-empty tuple or byte
      string, which the model treats as an unsupported format although Python
      may succeed there or raise `IndexError`. An empty value stores nothing. */
  function GpsEntries(v: TagValue): (r: Option<seq<Entry>>)
    ensures v.Dict? ==> r == Some(v.entries)
    ensures IsNumber(v) ==> r.None?
  {
    match v
    case Dict(entries) => Some(entries)
    case Text(s) => if s == [] then Some([]) else None
    case Bytes(b) => if b == [] then Some([]) else None
    case Tuple(items) => if items == [] then Some([]) else None
    case _ => None
  }

  /** `m` after assigning every entry of `es` into it, left to right. */
  function Insert(m: map<string, TagValue>, es: seq<Entry>): map<string, TagValue>
  {
    if es == [] then m
    else Insert(m, es[..|es| - 1])[es[|es| - 1].name := es[|es| - 1].value]
  }

  /** The `gps_info` dictionary after the loop over the EXIF block, or `None`
      when a `GPSInfo` value makes it return "GPS data format not supported". */
  function CollectGps(exif: seq<ExifTag>): Option<map<string, TagValue>>
  {
    if exif == [] then Some(map[])
    else
      match CollectGps(exif[..|exif| - 1])
      case None => None
      case Some(m) =>
        var tag := exif[|exif| - 1];
        if tag.name != "GPSInfo" then Some(m)
        else
          match GpsEntries(tag.value)
          case None => None
          case Some(es) => Some(Insert(m, es))
  }

  /** A key is present after the insertions exactly when it was before or
      some entry names it. */
  lemma {:induction false} InsertKeys(m: map<string, TagValue>, es: seq<Entry>, k: string)
    ensures k in Insert(m, es) <==> k in m || exists j :: 0 <= j < |es| && es[j].name == k
  {
    if es != [] {
      var init := es[..|es| - 1];
      InsertKeys(m, init, k);
      assert forall j :: 0 <= j < |init| ==> init[j] == es[j];
      if (exists j :: 0 <= j < |es| && es[j].name == k) && es[|es| - 1].name != k {
        var j :| 0 <= j < |es| && es[j].name == k;
        assert init[j].name == k;
      }
    }
  }

  /** The last entry naming a key decides its value. */
  lemma {:induction false} InsertLastWins(m: map<string, TagValue>, es: seq<Entry>, k: string, j: nat)
    requires j < |es| && es[j].name == k
    requires forall l :: j < l < |es| ==> es[l].name != k
    ensures k in Insert(m, es) && Insert(m, es)[k] == es[j].value
  {
    if j < |es| - 1 {
      var init := es[..|es| - 1];
      assert init[j] == es[j];
      assert forall l :: j < l < |init| ==> init[l] == es[l];
      InsertLastWins(m, init, k, j);
    }
  }

  /** A key no entry names keeps its value. */
  lemma {:induction false} InsertUntouched(m: map<string, TagValue>, es: seq<Entry>, k: string)
    requires forall j :: 0 <= j < |es| ==> es[j].name != k
    requires k in m
    ensures k in Insert(m, es) && Insert(m, es)[k] == m[k]
  {
    if es != [] {
      var init := es[..|es| - 1];
      assert forall j :: 0 <= j < |init| ==> init[j] == es[j];
      InsertUntouched(m, init, k);
    }
  }

  /** Once the loop has returned the unsupported-format error, the tags after
      it change nothing. */
  lemma {:induction false} CollectNonePersists(exif: seq<ExifTag>, n: nat)
    requires n <= |exif| && CollectGps(exif[..n]).None?
    ensures CollectGps(exif).None?
  {
    if n == |exif| {
      assert exif[..n] == exif;
    } else {
      var init := exif[..|exif| - 1];
      assert init[..n] == exif[..n];
      CollectNonePersists(init, n);
    }
  }

  /** An EXIF block without a `GPSInfo` tag collects no GPS tags. */
  lemma {:induction false} CollectWithoutGpsInfo(exif: seq<ExifTag>)
    requires forall k :: 0 <= k < |exif| ==> exif[k].name != "GPSInfo"
    ensures CollectGps(exif) == Some(map[])
  {
    if exif != [] {
      CollectWithoutGpsInfo(exif[..|exif| - 1]);
    }
  }

  /* ---------------- the location record ---------------- */

  datatype Coordinates = Coordinates(
    latitude: real,
    longitude: real,
    latitudeRef: Option<TagValue>,
    longitudeRef: Option<TagValue>,
    coordinatesDecimal: string,
    googleMapsUrl: string,
    openStreetMapUrl: string)

  datatype Altitude = Altitude(altitude: TagValue, altitudeRef: string)

  /** The keys `extract_gps_info` fills in; `None` is an absent key.
      `rawGpsData` holds the collected values that `str()` is applied to. */
  datatype GpsRecord = GpsRecord(
    coordinates: Option<Coordinates>,
    altitude: Option<Altitude>,
    gpsDate: Option<TagValue>,
    gpsTimeUtc: Option<string>,
    rawGpsData: map<string, TagValue>)

  /** The dictionary `extract_gps_info` returns: a record, or `{"error": ...}`. */
  datatype GpsLocation = Located(record: GpsRecord) | GpsError(error: string)

  /** The JSON keys of a record. */
  function RecordKeys(r: GpsRecord): set<string>
  {
    (if r.coordinates.Some?
     then {"latitude", "longitude", "latitude_ref", "longitude_ref",
           "coordinates_decimal", "google_maps_url", "openstreetmap_url"}
     else {})
    + (if r.altitude.Some? then {"altitude", "altitude_ref"} else {})
    + (if r.gpsDate.Some? then {"gps_date"} else {})
    + (if r.gpsTimeUtc.Some? then {"gps_time_utc"} else {})
    + {"raw_gps_data"}
  }

  /** A record never carries an `error` key. */
  lemma RecordHasNoErrorKey(r: GpsRecord)
    ensures "error" !in RecordKeys(r) && "raw_gps_data" in RecordKeys(r)
  {
  }

  /** The JSON keys of what `extract_gps_info` returns. */
  function LocationKeys(loc: GpsLocation): set<string>
  {
    match loc
    case Located(r) => RecordKeys(r)
    case GpsError(_) => {"error"}
  }

  /** `d.get(key)` */
  function Lookup(gps: map<string, TagValue>, key: string): Option<TagValue>
  {
    if key in gps then Some(gps[key]) else None
  }

  /** `d.get(key, default)` */
  function Get(gps: map<string, TagValue>, key: string, default: TagValue): TagValue
  {
    if key in gps then gps[key] else default
  }

  /** The coordinate keys, built from the two converted values. */
  function MakeCoordinates(lat: real, lon: real, latRef: Option<TagValue>, lonRef: Option<TagValue>)
    : Coordinates
  {
    var la, lo := FloatRepr(lat), FloatRepr(lon);
    Coordinates(lat, lon, latRef, lonRef, la + ", " + lo,
                "https://maps.google.com/?q=" + la + "," + lo,
                "https://www.openstreetmap.org/?mlat=" + la + "&mlon=" + lo + "&zoom=15")
  }

  /** The coordinate keys: present only when both `GPSLatitude` and
      `GPSLongitude` are present and both convert, with `N` and `E` as the
      default hemisphere letters. */
  function CoordinatesOf(gps: map<string, TagValue>): (r: Option<Coordinates>)
    ensures r.Some? ==> OnGrid(r.value.latitude, 8) && OnGrid(r.value.longitude, 8)
  {
    if "GPSLatitude" in gps && "GPSLongitude" in gps then
      var lat := DmsToDecimal(gps["GPSLatitude"], Get(gps, "GPSLatitudeRef", Text("N")));
      var lon := DmsToDecimal(gps["GPSLongitude"], Get(gps, "GPSLongitudeRef", Text("E")));
      if lat.Some? && lon.Some? then
        Some(MakeCoordinates(lat.value, lon.value,
                             Lookup(gps, "GPSLatitudeRef"), Lookup(gps, "GPSLongitudeRef")))
      else None
    else None
  }

  /** `-altitude` for an `int` or a `float`. */
  function Negate(v: TagValue): TagValue
    requires IsIntOrFloat(v)
  {
    match v
    case IntVal(i) => IntVal(-i)
    case FloatVal(f) => FloatVal(-f)
  }

  /** The altitude keys: only for an `int` or `float` altitude; a reference
      other than zero (missing counts as `0`) negates it and labels it below
      sea level. */
  function AltitudeOf(gps: map<string, TagValue>): (r: Option<Altitude>)
    ensures r.Some? ==> "GPSAltitude" in gps && IsIntOrFloat(r.value.altitude)
  {
    if "GPSAltitude" in gps && IsIntOrFloat(gps["GPSAltitude"]) then
      var altitude := gps["GPSAltitude"];
      var altitudeRef := Get(gps, "GPSAltitudeRef", IntVal(0));
      if EqualsZero(altitudeRef) then Some(Altitude(altitude, "above sea level"))
      else Some(Altitude(Negate(altitude), "below sea level"))
    else None
  }

  /** `f"{h:02d}:{m:02d}:{s:02d}"` */
  function TimeText(h: int, m: int, s: int): string
  {
    Pad2(h) + ":" + Pad2(m) + ":" + Pad2(s)
  }

  /** The `gps_time_utc` key: `Ok(None)` when absent or when the stamp does
      not have exactly three components; `Err` with the message of the
      exception that `len()` or `int()` raises. */
  function TimeOf(gps: map<string, TagValue>): (r: Result<Option<string>>)
    ensures "GPSTimeStamp" !in gps ==> r == Ok(None)
    ensures r.Ok? && r.value.Some? ==> "GPSTimeStamp" in gps && Length(gps["GPSTimeStamp"]) == Ok(3)
  {
    if "GPSTimeStamp" !in gps then Ok(None)
    else
      var stamp := gps["GPSTimeStamp"];
      match Length(stamp)
      case Err(e) => Err(e)
      case Ok(n) =>
        if n != 3 then Ok(None)
        else
          var parts := Items(stamp).value;
          match IntOf(parts[0])
          case Err(e) => Err(e)
          case Ok(h) =>
            match IntOf(parts[1])
            case Err(e) => Err(e)
            case Ok(m) =>
              match IntOf(parts[2])
              case Err(e) => Err(e)
              case Ok(s) => Ok(Some(TimeText(h, m, s)))
  }

  /** The record before the final `location_data if location_data else ...`. */
  function RecordOf(gps: map<string, TagValue>, time: Option<string>): GpsRecord
  {
    GpsRecord(CoordinatesOf(gps), AltitudeOf(gps), Lookup(gps, "GPSDateStamp"), time, gps)
  }

  /** What `extract_gps_info` returns for an EXIF block. */
  function GpsLocationOf(exif: seq<ExifTag>): (loc: GpsLocation)
    ensures loc.Located? ==> exif != [] && loc.record.rawGpsData != map[]
                             && CollectGps(exif) == Some(loc.record.rawGpsData)
  {
    if exif == [] then GpsError("No EXIF data available")
    else
      match CollectGps(exif)
      case None => GpsError("GPS data format not supported")
      case Some(gps) =>
        if gps == map[] then GpsError("No GPS data found in EXIF")
        else
          match TimeOf(gps)
          case Err(e) => GpsError("Error processing GPS data: " + e)
          case Ok(time) =>
            var record := RecordOf(gps, time);
            if RecordKeys(record) != {} then Located(record)
            else GpsError("No valid GPS coordinates found")
  }

  /** `extract_gps_info`: the loop over the EXIF block collects the GPS tags,
      then the record is filled in key by key. */
  method ExtractGpsInfo(exif: seq<ExifTag>) returns (loc: GpsLocation)
    ensures loc == GpsLocationOf(exif)
  {
    if exif == [] {
      return GpsError("No EXIF data available");
    }
    var gps: map<string, TagValue> := map[];
    var i := 0;
    while i < |exif|
      invariant 0 <= i <= |exif|
      invariant CollectGps(exif[..i]) == Some(gps)
    {
      var tag := exif[i];
      assert exif[..i + 1][..i] == exif[..i];
      if tag.name == "GPSInfo" {
        var entries := GpsEntries(tag.value);
        if entries.None? {
          CollectNonePersists(exif, i + 1);
          return GpsError("GPS data format not supported");
        }
        var es := entries.value;
        ghost var before := gps;
        var j := 0;
        while j < |es|
          invariant 0 <= j <= |es|
          invariant gps == Insert(before, es[..j])
        {
          assert es[..j + 1][..j] == es[..j];
          gps := gps[es[j].name := es[j].value];
          j := j + 1;
        }
        assert es[..j] == es;
      }
      i := i + 1;
    }
    assert exif[..i] == exif;
    if gps == map[] {
      return GpsError("No GPS data found in EXIF");
    }
    var coordinates := CoordinatesOf(gps);
    var altitude := AltitudeOf(gps);
    var date := Lookup(gps, "GPSDateStamp");
    var time := TimeOf(gps);
    if time.Err? {
      return GpsError("Error processing GPS data: " + time.error);
    }
    var record := GpsRecord(coordinates, altitude, date, time.value, gps);
    if RecordKeys(record) == {} {
      return GpsError("No valid GPS coordinates found");
    }
    loc := Located(record);
  }

  /* ---------------- properties of the record ---------------- */

  /** The two fixed error shapes: no EXIF block, and an EXIF block from
      which no GPS tag was collected (a `GPSInfo` tag with no entries, or no
      `GPSInfo` tag at all). */
  lemma ErrorShapes(exif: seq<ExifTag>)
    ensures exif == [] ==> GpsLocationOf(exif) == GpsError("No EXIF data available")
    ensures exif != [] && CollectGps(exif) == Some(map[])
            ==> GpsLocationOf(exif) == GpsError("No GPS data found in EXIF")
    ensures exif != [] && (forall k :: 0 <= k < |exif| ==> exif[k].name != "GPSInfo")
            ==> GpsLocationOf(exif) == GpsError("No GPS data found in EXIF")
    ensures LocationKeys(GpsError("")) == {"error"}
  {
    if exif != [] && (forall k :: 0 <= k < |exif| ==> exif[k].name != "GPSInfo") {
      CollectWithoutGpsInfo(exif);
    }
  }

  /** Once some GPS tag has been collected and no exception occurs, the
      result carries `raw_gps_data` (the collected tags) and no `error` key;
      in every other case it is exactly an `error` record. */
  lemma ErrorKeyExactly(exif: seq<ExifTag>)
    ensures var loc := GpsLocationOf(exif);
            var ok := exif != [] && CollectGps(exif).Some? && CollectGps(exif).value != map[]
                      && TimeOf(CollectGps(exif).value).Ok?;
            && ("error" !in LocationKeys(loc) <==> ok)
            && (ok ==> loc.Located? && "raw_gps_data" in LocationKeys(loc)
                       && loc.record.rawGpsData == CollectGps(exif).value)
            && (!ok ==> LocationKeys(loc) == {"error"})
  {
    var loc := GpsLocationOf(exif);
    if exif == [] {
      assert loc == GpsError("No EXIF data available");
    } else if CollectGps(exif).None? {
      assert loc == GpsError("GPS data format not supported");
    } else if CollectGps(exif).value == map[] {
      assert loc == GpsError("No GPS data found in EXIF");
    } else if TimeOf(CollectGps(exif).value).Err? {
      assert loc == GpsError("Error processing GPS data: " + TimeOf(CollectGps(exif).value).error);
    } else {
      var r := RecordOf(CollectGps(exif).value, TimeOf(CollectGps(exif).value).value);
      RecordHasNoErrorKey(r);
      assert loc == Located(r);
    }
  }

  /** Coordinates come from both tags, both converted; both links embed the
      same `lat,lon` text as `coordinates_decimal`, and the OpenStreetMap
      link asks for zoom level 15. */
  lemma CoordinateLinks(gps: map<string, TagValue>)
    requires CoordinatesOf(gps).Some?
    ensures "GPSLatitude" in gps && "GPSLongitude" in gps
    ensures DmsToDecimal(gps["GPSLatitude"], Get(gps, "GPSLatitudeRef", Text("N"))).Some?
    ensures DmsToDecimal(gps["GPSLongitude"], Get(gps, "GPSLongitudeRef", Text("E"))).Some?
    ensures var c := CoordinatesOf(gps).value;
            var la, lo := FloatRepr(c.latitude), FloatRepr(c.longitude);
            && c.coordinatesDecimal == la + ", " + lo
            && c.googleMapsUrl == "https://maps.google.com/?q=" + la + "," + lo
            && c.openStreetMapUrl == "https://www.openstreetmap.org/?mlat=" + la + "&mlon=" + lo + "&zoom=15"
    ensures CoordinatesOf(gps).value.latitude
            == DmsToDecimal(gps["GPSLatitude"], Get(gps, "GPSLatitudeRef", Text("N"))).value
    ensures CoordinatesOf(gps).value.longitude
            == DmsToDecimal(gps["GPSLongitude"], Get(gps, "GPSLongitudeRef", Text("E"))).value
  {
  }

  /** The coordinate keys are present exactly when both `GPSLatitude` and
      `GPSLongitude` are present and both convert, `N` and `E` being the
      default references. */
  lemma CoordinatesPresent(gps: map<string, TagValue>)
    ensures CoordinatesOf(gps).Some? <==>
              && "GPSLatitude" in gps && "GPSLongitude" in gps
              && DmsToDecimal(gps["GPSLatitude"], Get(gps, "GPSLatitudeRef", Text("N"))).Some?
              && DmsToDecimal(gps["GPSLongitude"], Get(gps, "GPSLongitudeRef", Text("E"))).Some?
  {
  }

  /** Altitude appears only for an `int` or `float` value; it is negated and
      labelled below sea level exactly when the reference is not zero, a
      missing reference counting as zero. */
  lemma AltitudeSign(gps: map<string, TagValue>)
    ensures AltitudeOf(gps).Some? <==> "GPSAltitude" in gps && IsIntOrFloat(gps["GPSAltitude"])
    ensures AltitudeOf(gps).Some? ==>
              var a := AltitudeOf(gps).value;
              var v := NumberOf(gps["GPSAltitude"]).value;
              var below := "GPSAltitudeRef" in gps && !EqualsZero(gps["GPSAltitudeRef"]);
              && IsIntOrFloat(a.altitude)
              && NumberOf(a.altitude) == Some(if below then -v else v)
              && a.altitudeRef == (if below then "below sea level" else "above sea level")
  {
    if AltitudeOf(gps).Some? {
      var alt := gps["GPSAltitude"];
      assert alt.IntVal? || alt.FloatVal?;
      assert EqualsZero(IntVal(0));
    }
  }

  /* ---------------- reading back gps_time_utc ---------------- */

  /** Python's `t.split(sep)`. */
  function Split(t: string, sep: char): (r: seq<string>)
    ensures |r| >= 1
    decreases |t|
  {
    if sep in t then
      var i := IndexOf(t, sep);
      [t[..i]] + Split(t[i + 1..], sep)
    else [t]
  }

  lemma SplitJoin(a: string, sep: char, b: string)
    requires sep !in a
    ensures Split(a + [sep] + b, sep) == [a] + Split(b, sep)
  {
    var t := a + [sep] + b;
    assert IndexOf(t, sep) == |a| by {
      assert t[|a|] == sep;
      assert forall k :: 0 <= k < |a| ==> t[k] == a[k];
    }
    assert t[..|a|] == a && t[|a| + 1..] == b;
  }

  /** Three colon-free fields joined by colons split back into those fields. */
  lemma SplitThree(a: string, b: string, c: string)
    requires ':' !in a && ':' !in b && ':' !in c
    ensures Split(a + ":" + b + ":" + c, ':') == [a, b, c]
  {
    assert a + ":" + b + ":" + c == a + [':'] + (b + [':'] + c);
    SplitJoin(a, ':', b + [':'] + c);
    SplitJoin(b, ':', c);
  }

  /** A zero-padded field is a sign and digits, never a colon. */
  lemma Pad2NoColon(n: int)
    ensures ':' !in Pad2(n)
  {
    var s := Pad2(n);
    if 0 <= n < 10 {
      PrefixedDigitsNoColon(s, '0', NatToString(n));
    } else if n < 0 {
      PrefixedDigitsNoColon(s, '-', NatToString(-n));
    } else {
      PrefixedDigitsNoColon(s, s[0], s[1..]);
    }
  }

  /** A character other than a colon followed by digits has no colon. */
  lemma PrefixedDigitsNoColon(s: string, c: char, digits: string)
    requires c != ':' && AllDigits(digits) && s == [c] + digits
    ensures ':' !in s
  {
    assert forall k :: 1 <= k < |s| ==> s[k] == digits[k - 1];
  }

  /** `gps_time_utc` splits at its colons into three fields of at least two
      characters each, which `int()` reads back as the three components. */
  lemma TimeTextReadsBack(h: int, m: int, s: int)
    ensures Split(TimeText(h, m, s), ':') == [Pad2(h), Pad2(m), Pad2(s)]
    ensures |Pad2(h)| >= 2 && |Pad2(m)| >= 2 && |Pad2(s)| >= 2
    ensures PyInt(Pad2(h)) == Some(h) && PyInt(Pad2(m)) == Some(m) && PyInt(Pad2(s)) == Some(s)
  {
    Pad2NoColon(h);
    Pad2NoColon(m);
    Pad2NoColon(s);
    SplitThree(Pad2(h), Pad2(m), Pad2(s));
  }

  /** `gps_time_utc` is present exactly when the stamp has three components
      that all convert with `int()`, and it then holds those three integers. */
  lemma TimeOfSpec(gps: map<string, TagValue>)
    ensures TimeOf(gps).Ok? && TimeOf(gps).value.Some? <==>
              "GPSTimeStamp" in gps && Length(gps["GPSTimeStamp"]) == Ok(3)
              && IntOf(Items(gps["GPSTimeStamp"]).value[0]).Ok?
              && IntOf(Items(gps["GPSTimeStamp"]).value[1]).Ok?
              && IntOf(Items(gps["GPSTimeStamp"]).value[2]).Ok?
    ensures TimeOf(gps).Ok? && TimeOf(gps).value.Some? ==>
              var parts := Items(gps["GPSTimeStamp"]).value;
              var fields := Split(TimeOf(gps).value.value, ':');
              && |fields| == 3
              && PyInt(fields[0]) == Some(IntOf(parts[0]).value)
              && PyInt(fields[1]) == Some(IntOf(parts[1]).value)
              && PyInt(fields[2]) == Some(IntOf(parts[2]).value)
    ensures "GPSTimeStamp" in gps && IsNumber(gps["GPSTimeStamp"])
            ==> TimeOf(gps) == Err("object of type '" + TypeName(gps["GPSTimeStamp"]) + "' has no len()")
  {
    if TimeOf(gps).Ok? && TimeOf(gps).value.Some? {
      var parts := Items(gps["GPSTimeStamp"]).value;
      var h, m, s := IntOf(parts[0]).value, IntOf(parts[1]).value, IntOf(parts[2]).value;
      assert TimeOf(gps).value.value == TimeText(h, m, s);
      TimeTextReadsBack(h, m, s);
    }
  }
}
