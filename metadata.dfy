/**
 * The rest of the metadata service's own logic: the orientation label,
 * `format_file_size`, the EXIF filter of `extract_exif_data`, the image
 * dimensions of `analyze_image_properties`, the `image/` content-type guard
 * and the replies of the `/extract-metadata` and `/extract-gps-only`
 * endpoints.
 */
module Metadata {
  import opened Wrappers
  import opened PyText
  import opened PyNumbers
  import opened ExifValues
  import opened Gps

  /* ---------------- orientation ---------------- */

  datatype Orientation = Landscape | Portrait | Square

  /** `"landscape" if width > height else "portrait" if height > width else "square"` */
  function OrientationOf(width: int, height: int): (o: Orientation)
    ensures o == Landscape <==> width > height
    ensures o == Portrait <==> height > width
    ensures o == Square <==> width == height
  {
    if width > height then Landscape
    else if height > width then Portrait
    else Square
  }

  function OrientationLabel(o: Orientation): string
  {
    match o
    case Landscape => "landscape"
    case Portrait => "portrait"
    case Square => "square"
  }

  /* ---------------- format_file_size ---------------- */

  const SizeNames: seq<string> := ["B", "KB", "MB", "GB"]

  function Pow1024(i: nat): (p: nat)
    ensures p >= 1
  {
    if i == 0 then 1 else 1024 * Pow1024(i - 1)
  }

  /** The unit a positive size is shown in: the largest of B, KB, MB, GB
      whose unit does not exceed the size. */
  function UnitIndex(size: nat): (i: nat)
    requires size > 0
    ensures i < |SizeNames|
    ensures Pow1024(i) <= size
    ensures i == 3 || size < Pow1024(i + 1)
  {
    if size < Pow1024(1) then 0
    else if size < Pow1024(2) then 1
    else if size < Pow1024(3) then 2
    else 3
  }

  /** The size in its unit, before formatting. */
  function Scaled(size: nat, i: nat): real
  {
    size as real / Pow1024(i) as real
  }

  /** What `format_file_size` returns. */
  function FileSizeText(size: nat): string
  {
    if size == 0 then "0 B"
    else
      var i := UnitIndex(size);
      DivNonNeg(size as real, Pow1024(i) as real);
      Fixed2(Scaled(size, i)) + " " + SizeNames[i]
  }

  lemma ScaleStep(size: real, p: nat)
    ensures (size / 1024.0) * (1024 * p) as real == size * p as real
  {
  }

  lemma ScaledIsQuotient(size: real, n: nat, p: nat)
    requires p >= 1 && size * p as real == n as real
    ensures size == n as real / p as real
  {
  }

  lemma MulPos(a: real, b: real)
    requires a > 0.0 && b > 0.0
    ensures a * b > 0.0
  {
  }

  lemma QuotientBelow(n: nat, p: nat, x: real)
    requires p >= 1 && x * p as real == n as real && x < 1024.0
    ensures n < 1024 * p
  {
    MulPos(1024.0 - x, p as real);
    assert (1024.0 - x) * p as real == 1024.0 * p as real - x * p as real;
  }

  /** `format_file_size`: divides by 1024 while the size is at least 1024
      and a larger unit is left. */
  method FormatFileSize(sizeBytes: nat) returns (text: string)
    ensures text == FileSizeText(sizeBytes)
  {
    if sizeBytes == 0 {
      return "0 B";
    }
    var size: real := sizeBytes as real;
    var i: nat := 0;
    while size >= 1024.0 && i < |SizeNames| - 1
      invariant i <= 3
      invariant size * Pow1024(i) as real == sizeBytes as real
      invariant Pow1024(i) <= sizeBytes
      decreases 3 - i
    {
      DivideStep(sizeBytes, size, i);
      size := size / 1024.0;
      i := i + 1;
    }
    LoopExit(sizeBytes, size, i);
    text := Fixed2(size) + " " + SizeNames[i];
  }

  /** One division by 1024 keeps the loop's invariant. */
  lemma DivideStep(sizeBytes: nat, size: real, i: nat)
    requires i < 3 && size >= 1024.0
    requires size * Pow1024(i) as real == sizeBytes as real
    ensures (size / 1024.0) * Pow1024(i + 1) as real == sizeBytes as real
    ensures Pow1024(i + 1) <= sizeBytes
  {
    ScaleStep(size, Pow1024(i));
    assert size * Pow1024(i) as real >= 1024.0 * Pow1024(i) as real;
  }

  /** When the loop stops, it has reached the unit `UnitIndex` chooses and
      the size in that unit. */
  lemma LoopExit(sizeBytes: nat, size: real, i: nat)
    requires sizeBytes > 0 && i <= 3
    requires size * Pow1024(i) as real == sizeBytes as real
    requires Pow1024(i) <= sizeBytes
    requires size < 1024.0 || i == 3
    ensures i == UnitIndex(sizeBytes)
    ensures size == Scaled(sizeBytes, i)
  {
    ScaledIsQuotient(size, sizeBytes, Pow1024(i));
    if i < 3 {
      QuotientBelow(sizeBytes, Pow1024(i), size);
    }
  }

  /** The unit index stays at most 3; the scaled size is below 1024 unless
      the unit is GB, at least 1 once a unit above B is chosen, and the text
      is that scaled size with two decimals followed by the unit name. */
  lemma FileSizeTextSpec(size: nat)
    ensures size == 0 ==> FileSizeText(size) == "0 B"
    ensures size > 0 ==> UnitIndex(size) <= 3
    ensures size > 0 ==> Scaled(size, UnitIndex(size)) * Pow1024(UnitIndex(size)) as real == size as real
    ensures size > 0 ==> UnitIndex(size) == 3 || Scaled(size, UnitIndex(size)) < 1024.0
    ensures size > 0 ==> Scaled(size, UnitIndex(size)) >= 1.0
    ensures size > 0 ==> Scaled(size, UnitIndex(size)) >= 0.0
                         && FileSizeText(size) == Fixed2(Scaled(size, UnitIndex(size))) + " " + SizeNames[UnitIndex(size)]
  {
    if size > 0 {
      ScaledTimesUnit(size, UnitIndex(size));
      ScaledBounds(size, Pow1024(UnitIndex(size)), UnitIndex(size) == 3);
    }
  }

  lemma ScaledTimesUnit(size: nat, i: nat)
    ensures Scaled(size, i) * Pow1024(i) as real == size as real
    ensures Scaled(size, i) >= 0.0
  {
    DivMul(size as real, Pow1024(i) as real);
    DivNonNeg(size as real, Pow1024(i) as real);
  }


  lemma ScaledBounds(size: nat, p: nat, last: bool)
    requires p >= 1 && p <= size && (last || size < 1024 * p)
    ensures size as real / p as real >= 1.0
    ensures !last ==> size as real / p as real < 1024.0
  {
    var a, q := size as real, p as real;
    DivMul(a, q);
    if !last && a / q >= 1024.0 {
      MulNonNeg(a / q - 1024.0, q);
      assert (a / q - 1024.0) * q == a / q * q - 1024.0 * q;
    }
  }

  /* ---------------- extract_exif_data ---------------- */

  /** How a tag value is stored in the EXIF dictionary: as it is when it is
      JSON-serialisable, as `str(value)` for bytes, tuples and values JSON
      rejects, as `json.dumps(value, default=str)` for a dictionary. */
  datatype ExifField = Plain(value: TagValue) | Stringified(value: TagValue) | JsonDumped(value: TagValue)

  function ExifFieldOf(v: TagValue): (f: ExifField)
    ensures f.value == v
    ensures f.Plain? <==> v.IntVal? || v.FloatVal? || v.Text?
  {
    match v
    case Bytes(_) => Stringified(v)
    case Tuple(_) => Stringified(v)
    case Dict(_) => JsonDumped(v)
    case RationalVal(_) => Stringified(v)
    case _ => Plain(v)
  }

  /** The EXIF dictionary: every tag but `GPSInfo`, in order, a later tag of
      the same name replacing an earlier one. */
  function ExifDictOf(exif: seq<ExifTag>): map<string, ExifField>
  {
    if exif == [] then map[]
    else
      var d := ExifDictOf(exif[..|exif| - 1]);
      var tag := exif[|exif| - 1];
      if tag.name != "GPSInfo" then d[tag.name := ExifFieldOf(tag.value)] else d
  }

  /** `extract_exif_data` */
  method ExtractExifData(exif: seq<ExifTag>) returns (d: map<string, ExifField>)
    ensures d == ExifDictOf(exif)
  {
    if exif == [] {
      return map[];
    }
    d := map[];
    var i := 0;
    while i < |exif|
      invariant 0 <= i <= |exif|
      invariant d == ExifDictOf(exif[..i])
    {
      assert exif[..i + 1][..i] == exif[..i];
      var tag := exif[i];
      if tag.name != "GPSInfo" {
        d := d[tag.name := ExifFieldOf(tag.value)];
      }
      i := i + 1;
    }
    assert exif[..i] == exif;
  }

  /** `GPSInfo` is never a key of the EXIF dictionary. */
  lemma {:induction false} ExifDictSkipsGps(exif: seq<ExifTag>)
    ensures "GPSInfo" !in ExifDictOf(exif)
  {
    if exif != [] {
      ExifDictSkipsGps(exif[..|exif| - 1]);
    }
  }

  /** Every tag name other than `GPSInfo` is a key exactly when some tag
      carries it. */
  lemma {:induction false} ExifDictKeys(exif: seq<ExifTag>, k: string)
    ensures k in ExifDictOf(exif) <==>
              k != "GPSInfo" && exists j :: 0 <= j < |exif| && exif[j].name == k
  {
    if exif != [] {
      var init := exif[..|exif| - 1];
      ExifDictKeys(init, k);
      ExifDictSkipsGps(exif);
      if k in ExifDictOf(init) {
        var j :| 0 <= j < |init| && init[j].name == k;
        assert exif[j] == init[j];
      }
      if (exists j :: 0 <= j < |exif| && exif[j].name == k) && exif[|exif| - 1].name != k {
        var j :| 0 <= j < |exif| && exif[j].name == k;
        assert init[j] == exif[j];
      }
    }
  }

  /** The key of a tag holds the value of its last occurrence. */
  lemma {:induction false} ExifDictLastWins(exif: seq<ExifTag>, k: string, j: nat)
    requires j < |exif| && exif[j].name == k && k != "GPSInfo"
    requires forall l :: j < l < |exif| ==> exif[l].name != k
    ensures k in ExifDictOf(exif) && ExifDictOf(exif)[k] == ExifFieldOf(exif[j].value)
  {
    if j < |exif| - 1 {
      var init := exif[..|exif| - 1];
      assert init[j] == exif[j];
      assert exif[|exif| - 1].name != k;
      ExifDictLastWins(init, k, j);
    }
  }

  /* ---------------- analyze_image_properties ---------------- */

  datatype Dimensions = Dimensions(
    width: int,
    height: int,
    resolution: string,
    aspectRatio: real,
    megapixels: real,
    orientation: string)

  /** The `dimensions` part of `analyze_image_properties`; a zero height makes
      the aspect ratio raise, and the whole result is the error record. */
  function DimensionsOf(width: nat, height: nat): (r: Result<Dimensions>)
    ensures r.Err? <==> height == 0
    ensures r.Ok? ==> r.value.width == width && r.value.height == height
  {
    if height == 0 then Err("Error analyzing image properties: division by zero")
    else
      Ok(Dimensions(width, height, IntToString(width) + "x" + IntToString(height),
                    RoundTo(width as real / height as real, 3),
                    RoundTo((width * height) as real / 1000000.0, 2),
                    OrientationLabel(OrientationOf(width, height))))
  }

  /** The aspect ratio and megapixel count are within half a unit of their
      last decimal of `width / height` and `width * height / 10^6`, and the
      orientation label agrees with the comparison of the sides. */
  lemma DimensionsSpec(width: nat, height: nat)
    ensures DimensionsOf(width, height).Err? <==> height == 0
    ensures height > 0 ==>
              var d := DimensionsOf(width, height).value;
              && -0.5 <= (d.aspectRatio - width as real / height as real) * Scale(3) <= 0.5
              && -0.5 <= (d.megapixels - (width * height) as real / 1000000.0) * Scale(2) <= 0.5
              && (d.orientation == "landscape" <==> width > height)
              && (d.orientation == "portrait" <==> height > width)
              && (d.orientation == "square" <==> width == height)
  {
  }

  /* ---------------- the endpoints ---------------- */

  /** `content_type.startswith('image/')` */
  function IsImageContentType(contentType: string): (b: bool)
    ensures b <==> "image/" <= contentType
  {
    |contentType| >= 6 && contentType[..6] == "image/"
  }

  /** A decoded upload: its size, its dimensions and its EXIF block. */
  datatype Image = Image(width: nat, height: nat, exif: seq<ExifTag>)

  /** What an endpoint answers: a JSON body with a status code, or an
      `HTTPException` with its status code and detail. */
  datatype Response<T> = Reply(statusCode: nat, body: T) | Raise(statusCode: nat, detail: string)

  /** The `status` and `message` of `/extract-gps-only`, from the GPS record. */
  function GpsOnlyStatus(loc: GpsLocation): (r: (string, string))
    ensures r.0 == "success" <==> "error" !in LocationKeys(loc)
    ensures r.0 != "success" ==> r.0 == "no_gps_data" && r.1 == loc.error
  {
    if "error" !in LocationKeys(loc) then ("success", "GPS location extracted successfully")
    else ("no_gps_data", loc.error)
  }

  datatype GpsOnlyBody = GpsOnlyBody(gpsLocation: GpsLocation, status: string, message: string)

  /** `/extract-gps-only`; `image` is the outcome of `Image.open`, with the
      exception text when it fails. */
  function ExtractGpsOnly(contentType: string, image: Result<Image>): (r: Response<GpsOnlyBody>)
    ensures r.Reply? ==> r.statusCode == 200 && IsImageContentType(contentType) && image.Ok?
                         && r.body.gpsLocation == GpsLocationOf(image.value.exif)
                         && (r.body.status == "success" <==> "error" !in LocationKeys(r.body.gpsLocation))
  {
    if !IsImageContentType(contentType) then Raise(400, "File must be an image")
    else
      match image
      case Err(e) => Raise(500, "Error extracting GPS data: " + e)
      case Ok(img) =>
        var loc := GpsLocationOf(img.exif);
        var (status, message) := GpsOnlyStatus(loc);
        Reply(200, GpsOnlyBody(loc, status, message))
  }

  /** The GPS-only endpoint reports `success` exactly when GPS tags were
      collected and no exception occurred, and otherwise `no_gps_data` with
      the record's error text. The JSON rendering of the reply is not
      modelled. */
  lemma GpsOnlySuccessExactly(contentType: string, img: Image)
    requires IsImageContentType(contentType)
    ensures var r := ExtractGpsOnly(contentType, Ok(img));
            var exif := img.exif;
            var collected := exif != [] && CollectGps(exif).Some? && CollectGps(exif).value != map[]
                             && TimeOf(CollectGps(exif).value).Ok?;
            && r.Reply?
            && (r.body.status == "success" <==> collected)
            && (!collected ==> r.body.status == "no_gps_data"
                               && r.body.message == GpsLocationOf(exif).error)
  {
    ErrorKeyExactly(img.exif);
  }

  datatype FileInfo = FileInfo(sizeBytes: nat, sizeFormatted: string, contentType: string)

  datatype MetadataBody =
    | Metadata(fileInfo: FileInfo, imageProperties: Result<Dimensions>,
               exifData: map<string, ExifField>, gpsLocation: GpsLocation,
               status: string, message: string)
    | ProcessingError(status: string, message: string)

  /** `/extract-metadata` for an upload of `sizeBytes` bytes. */
  function ExtractMetadata(contentType: string, sizeBytes: nat, image: Result<Image>)
    : (r: Response<MetadataBody>)
    ensures r.Raise? <==> !IsImageContentType(contentType)
    ensures r.Reply? && r.body.Metadata? ==> r.statusCode == 200 && "GPSInfo" !in r.body.exifData
  {
    if !IsImageContentType(contentType) then Raise(400, "File must be an image")
    else
      match image
      case Err(e) => Reply(500, ProcessingError("error", "Error processing image: " + e))
      case Ok(img) =>
        ExifDictSkipsGps(img.exif);
        Reply(200, Metadata(FileInfo(sizeBytes, FileSizeText(sizeBytes), contentType),
                            DimensionsOf(img.width, img.height),
                            ExifDictOf(img.exif), GpsLocationOf(img.exif),
                            "success", "Metadata extracted successfully"))
  }

  /** Both endpoints refuse a non-image content type with 400; a decoded
      image yields a 200 reply whose metadata status is `success`, whatever
      the image properties and GPS parts hold; a decoding failure yields
      status 500. The JSON rendering of the reply is not modelled. */
  lemma EndpointOutcomes(contentType: string, sizeBytes: nat, image: Result<Image>)
    ensures !IsImageContentType(contentType) ==>
              ExtractMetadata(contentType, sizeBytes, image) == Raise(400, "File must be an image")
              && ExtractGpsOnly(contentType, image) == Raise(400, "File must be an image")
    ensures IsImageContentType(contentType) && image.Ok? ==>
              var r := ExtractMetadata(contentType, sizeBytes, image);
              r.statusCode == 200 && r.Reply? && r.body.Metadata? && r.body.status == "success"
              && r.body.exifData == ExifDictOf(image.value.exif)
              && "GPSInfo" !in r.body.exifData
    ensures IsImageContentType(contentType) && image.Err? ==>
              ExtractMetadata(contentType, sizeBytes, image).statusCode == 500
              && ExtractGpsOnly(contentType, image).statusCode == 500
  {
    if image.Ok? {
      ExifDictSkipsGps(image.value.exif);
    }
  }
}
