# Image Metadata API — a verified model of its core logic

This project models the logic of the Image Metadata Extraction API: a small
FastAPI service that takes an uploaded image and returns its EXIF tags, a GPS
location record and some size and shape facts. It also models the production
launcher that loads `KEY=VALUE` settings into the process environment. The
model covers:

- `dms_to_decimal`: degrees, minutes and seconds plus a hemisphere letter,
  turned into signed decimal degrees rounded to eight places.
- `extract_gps_info`:
  - It collects the GPS attribute tags of the EXIF block (Exif 2.3,
    CIPA DC-008, section 4.6.6) in a loop.
  - It then fills the location record key by key: coordinates with map links,
    signed altitude, GPS date, zero-padded UTC time and the raw tags.
  - Or it returns one of its fixed `{"error": ...}` records.
- From the rest of `app.py`:
  - the EXIF filter of `extract_exif_data`;
  - the dimensions part of `analyze_image_properties`, including the
    orientation label;
  - the unit loop of `format_file_size`;
  - the `image/` content-type guard;
  - the status decisions of `/extract-metadata` and `/extract-gps-only`.
- `load_env_file` and the settings `main` reads in `start_production.py`.
  The process environment is a class whose map field the loader updates in
  place.

Module layout:

| File | Contents |
|---|---|
| `wrappers.dfy` | `Option` and `Result`. |
| `pytext.dfy` | The Python string built-ins the code relies on: `str.strip()`, `int()` of a string, `str(n)` and `f"{n:02d}"`. |
| `numbers.dfy` | `round(x, n)` as round-half-to-even, `int(x)` as truncation, `repr` of a value rounded to eight places, and `f"{x:.2f}"`. All of them work on exact reals. |
| `exif_values.dfy` | The values a decoded tag can hold, and `len()`, iteration, `int()` and `== 0` on them. |
| `gps.dfy` | `dms_to_decimal` and `extract_gps_info`. |
| `metadata.dfy` | Orientation, `format_file_size`, `extract_exif_data`, the dimensions, the content-type guard and the two endpoints. |
| `production.dfy` | `load_env_file` and `main`'s settings. |

How the source's own forms are modelled:

- The three loops in `app.py` are methods with loop invariants, proved
  against specification functions:
  - `Gps.ExtractGpsInfo` against `GpsLocationOf`;
  - `Metadata.ExtractExifData` against `ExifDictOf`;
  - `Metadata.FormatFileSize` against `FileSizeText`.
- The lemmas then state what the source promises about those functions.
- `load_env_file` is the method `Production.Environment.LoadEnvFile`. It
  updates the `vars` map of an `Environment` object. It is proved against
  `LoadLines`, which the lemmas about the last-wins and untouched-key rules
  are stated over.

Three facts about the code that shape the model:

- The code applies no range check on latitude or longitude, so 100 degrees
  stays 100.
- The error for an EXIF block without GPS tags reads "No GPS data found in
  EXIF".
- The coordinate keys are optional within a GPS record. A record may hold only
  an altitude, a date or a time besides `raw_gps_data`.

## Model

| member | source | states |
|---|---|---|
| PyText.StripIsTrimmedSlice | image-metadata-api/start_production.py:17 | `strip()` returns the slice between the leading and trailing whitespace runs: no whitespace at either end, and everything removed is whitespace |
| PyText.StripIdempotent | image-metadata-api/start_production.py:17 | stripping a stripped line changes nothing |
| PyText.StripKeepsOut | image-metadata-api/start_production.py:19-20 | stripping adds no character, so a key taken before the first `=` still has no `=` |
| PyText.IndexOf | image-metadata-api/start_production.py:19 | the split position is the first occurrence of the separator |
| PyText.PyIntOfIntToString | image-metadata-api/start_production.py:34 | `int(str(n)) == n` for every integer, negative ones included |
| PyText.Pad2 | image-metadata-api/app.py:110 | `f"{n:02d}"` reads back as `n` under `int()`; for `n >= 0` it is digits only, exactly two for `n < 10` and otherwise the plain decimal width, and for `n < 0` it is a minus sign before the digits of `-n` |
| PyNumbers.RoundHalfEven | image-metadata-api/app.py:49 | the result is the nearest integer, and a tie goes to the even one |
| PyNumbers.RoundHalfEvenUnique | image-metadata-api/app.py:49 | exactly one integer meets the round-half-to-even rule |
| PyNumbers.RoundHalfEvenNeg | image-metadata-api/app.py:47-49 | rounding commutes with negation |
| PyNumbers.RoundTo | image-metadata-api/app.py:49 | `round(x, n)` lies on the `10^-n` grid, within half a unit of its last place from `x` |
| PyNumbers.RoundToNeg | image-metadata-api/app.py:47-49 | `round(-x, n) == -round(x, n)` |
| PyNumbers.RoundToNonNeg | image-metadata-api/app.py:49 | rounding a non-negative value gives a non-negative value |
| PyNumbers.RoundToOnGrid | image-metadata-api/app.py:49 | a value already on the grid is left unchanged by rounding |
| PyNumbers.Trunc | image-metadata-api/app.py:110 | `int(x)` truncates toward zero: below `x` by less than one for `x >= 0`, above it by less than one for `x < 0` |
| PyNumbers.Hundredths | image-metadata-api/app.py:294 | the count of hundredths that `%.2f` prints equals `round(x, 2)` scaled by 100 |
| PyNumbers.TwoPlacesReadsBack | image-metadata-api/app.py:294 | the two-decimal text of `n / 100` reads back as `n / 100` and has exactly two digits after its point |
| PyNumbers.FloatRepr | image-metadata-api/app.py:89-91 | the text of a rounded coordinate is non-empty, contains a point, and starts with a minus sign exactly when the value rounded to eight places is negative |
| PyNumbers.Fixed2ReadsBack | image-metadata-api/app.py:294 | `f"{x:.2f}"` reads back as `round(x, 2)` and has exactly two digits after its point |
| ExifValues.NumberOf | image-metadata-api/app.py:46 | exactly the int, float and rational tag values take part in the arithmetic, and an int keeps its value |
| ExifValues.Names | image-metadata-api/app.py:68 | iterating a dictionary yields its keys, in order |
| ExifValues.Items | image-metadata-api/app.py:45 | unpacking fails exactly on numbers; a string yields its characters and bytes yield their integer values |
| ExifValues.Length | image-metadata-api/app.py:108 | `len()` is the number of items iterated, and on a number it raises `TypeError` with Python's message |
| ExifValues.AsciiText | image-metadata-api/app.py:110 | a byte string is read as text exactly when every byte is ASCII, character for byte |
| ExifValues.IntOf | image-metadata-api/app.py:110 | `int()` keeps an int, truncates a float or rational, parses text exactly when it is an integer literal, and raises on a tuple or dictionary |
| ExifValues.IntOfIntText | image-metadata-api/app.py:110 | `int()` of the decimal text of an integer gives that integer |
| Gps.DmsToDecimal | image-metadata-api/app.py:42-51 | a converted value always lies on the eighth-decimal grid that `round(..., 8)` produces |
| Gps.DmsToDecimalSpec | image-metadata-api/app.py:42-51 | the result exists exactly when the value unpacks into three numbers; it is then `d + m/60 + s/3600` to within half a unit of the eighth decimal, negated for `S` or `W` |
| Gps.DmsHemisphere | image-metadata-api/app.py:47-48 | an `S` or `W` reference gives exactly the negation of the northern value; any other reference gives the northern value |
| Gps.DmsDefaultNonNegative | image-metadata-api/app.py:80-81 | with the default `N` or `E` reference, three non-negative numbers give a non-negative coordinate, and `E` agrees with `N` |
| Gps.DmsWholeDegrees | image-metadata-api/app.py:46-49 | whole degrees with zero minutes and seconds convert exactly, negated for `S` or `W` |
| Gps.GpsEntries | image-metadata-api/app.py:67-73 | a dictionary yields its entries; a number makes the loop raise `TypeError` |
| Gps.InsertKeys | image-metadata-api/app.py:68-70 | after the inner loop, a key is present exactly when it was before or some entry names it |
| Gps.InsertLastWins | image-metadata-api/app.py:68-70 | the last entry naming a key decides its value |
| Gps.InsertUntouched | image-metadata-api/app.py:68-70 | a key no entry names keeps its value |
| Gps.CollectNonePersists | image-metadata-api/app.py:71-73 | once an unsupported `GPSInfo` value has been met, the result is that error whatever follows |
| Gps.CollectWithoutGpsInfo | image-metadata-api/app.py:64-66 | an EXIF block without a `GPSInfo` tag collects no GPS tags |
| Gps.RecordHasNoErrorKey | image-metadata-api/app.py:113 | a location record always has `raw_gps_data` and never an `error` key |
| Gps.CoordinatesOf | image-metadata-api/app.py:79-92 | both coordinates of a coordinate block lie on the eighth-decimal grid |
| Gps.AltitudeOf | image-metadata-api/app.py:95-100 | an altitude block exists only when `GPSAltitude` is present, and its value is an int or float |
| Gps.TimeOf | image-metadata-api/app.py:106-110 | no time stamp gives no `gps_time_utc`; a time is produced only for a stamp of length 3 |
| Gps.GpsLocationOf | image-metadata-api/app.py:53-118 | a location record needs an EXIF block, and its `raw_gps_data` is exactly the non-empty collection of GPS tags |
| Gps.ExtractGpsInfo | image-metadata-api/app.py:53-118 | the tag loop and the key-by-key filling produce exactly the record or error that `GpsLocationOf` defines |
| Gps.ErrorShapes | image-metadata-api/app.py:56-76 | no EXIF gives exactly `{"error": "No EXIF data available"}`; a non-empty EXIF block whose collected GPS tags are empty gives exactly `{"error": "No GPS data found in EXIF"}`, which covers a `GPSInfo` holding no entries and, as a corollary, a block with no `GPSInfo` tag at all |
| Gps.ErrorKeyExactly | image-metadata-api/app.py:113-118 | there is no `error` key exactly when GPS tags were collected and no exception occurred; the record then carries the collected tags as `raw_gps_data`, and otherwise `error` is its only key |
| Gps.CoordinatesPresent | image-metadata-api/app.py:79-83 | the coordinate keys are present exactly when both tags are present and both convert, with `N` and `E` as default references |
| Gps.CoordinateLinks | image-metadata-api/app.py:79-91 | coordinates come from both tags, both converted with `N`/`E` defaults; both links embed the same `lat,lon` text as `coordinates_decimal`, and the OpenStreetMap link uses zoom 15 |
| Gps.AltitudeSign | image-metadata-api/app.py:95-100 | altitude appears exactly for an int or float value; it is negated and labelled below sea level exactly when the reference is not zero, a missing reference counting as zero |
| Gps.Pad2NoColon | image-metadata-api/app.py:110 | a zero-padded field never contains a colon |
| Gps.TimeTextReadsBack | image-metadata-api/app.py:110 | `HH:MM:SS` splits at its colons into three fields of width at least two, and `int()` reads each back as its component |
| Gps.TimeOfSpec | image-metadata-api/app.py:106-110 | `gps_time_utc` is present exactly when the stamp has three components that `int()` accepts, and it then reads back as those integers; a numeric stamp makes `len()` raise |
| Metadata.OrientationOf | image-metadata-api/app.py:163 | landscape exactly when width > height, portrait exactly when height > width, square exactly when they are equal |
| Metadata.UnitIndex | image-metadata-api/app.py:288-292 | the unit is the largest of B, KB, MB and GB whose size does not exceed the byte count, so the index stays at most 3 |
| Metadata.FormatFileSize | image-metadata-api/app.py:283-294 | the division loop produces exactly `FileSizeText` |
| Metadata.DivideStep | image-metadata-api/app.py:290-292 | one division by 1024 keeps `size * 1024^i` equal to the byte count |
| Metadata.LoopExit | image-metadata-api/app.py:290-294 | when the loop stops, `i` is the chosen unit and the size is `bytes / 1024^i` |
| Metadata.FileSizeTextSpec | image-metadata-api/app.py:283-294 | 0 gives `"0 B"`; otherwise the index is at most 3, the scaled size is `bytes / 1024^i`, lies in `[1, 1024)` unless the unit is GB, and is printed with two decimals before the unit name |
| Metadata.ExifFieldOf | image-metadata-api/app.py:131-141 | ints, floats and strings are stored as they are; bytes, tuples, rationals and dictionaries are stringified |
| Metadata.ExtractExifData | image-metadata-api/app.py:120-145 | the tag loop builds exactly the dictionary `ExifDictOf` defines |
| Metadata.ExifDictSkipsGps | image-metadata-api/app.py:130 | `GPSInfo` is never a key of the EXIF dictionary |
| Metadata.ExifDictKeys | image-metadata-api/app.py:128-139 | a name is a key exactly when it is not `GPSInfo` and some tag carries it |
| Metadata.ExifDictLastWins | image-metadata-api/app.py:128-141 | a key holds the stored form of its last tag's value |
| Metadata.DimensionsOf | image-metadata-api/app.py:154-163 | the dimensions fail exactly for a zero height, and otherwise carry the given width and height |
| Metadata.DimensionsSpec | image-metadata-api/app.py:154-163 | a zero height is the error record; otherwise the aspect ratio and megapixels are within half a unit of their last decimal, and the orientation label agrees with the comparison of the sides |
| Metadata.IsImageContentType | image-metadata-api/app.py:214 | the guard accepts exactly the content types with prefix `image/` |
| Metadata.GpsOnlyStatus | image-metadata-api/app.py:318-323 | `success` exactly when the record has no `error` key; otherwise `no_gps_data` with the error text as the message |
| Metadata.ExtractGpsOnly | image-metadata-api/app.py:296-328 | a reply has status code 200, comes from an accepted content type and a decoded image, carries that image's GPS record, and reports `success` exactly when the record has no `error` key |
| Metadata.GpsOnlySuccessExactly | image-metadata-api/app.py:310-323 | the GPS-only endpoint reports `success` exactly when GPS tags were collected without an exception, and otherwise `no_gps_data` with the record's error text |
| Metadata.ExtractMetadata | image-metadata-api/app.py:200-281 | the endpoint raises exactly for a non-image content type, and a metadata reply has status code 200 and no `GPSInfo` key in its EXIF data |
| Metadata.EndpointOutcomes | image-metadata-api/app.py:213-281 | a non-image content type is refused with 400 by both endpoints; a decoded image gives a 200 reply with status `success` and an EXIF dictionary without `GPSInfo`; a decoding failure gives 500 |
| Production.ParseEnvLine | image-metadata-api/start_production.py:17-19 | an assignment's key never contains `=`, because the line is split at its first `=` |
| Production.ParsedLineTrimmed | image-metadata-api/start_production.py:17-20 | an assigned key has no `=`, and neither key nor value has whitespace at either end |
| Production.ParseEnvLineRoundTrip | image-metadata-api/start_production.py:17-20 | `key=value` with trimmed parts, a non-empty key without `=` and not starting with `#` parses back to that assignment, even when the value contains `=` |
| Production.SetEnvError | image-metadata-api/start_production.py:20 | the assignment succeeds exactly when the key is not empty and neither part holds a null character |
| Production.LoadActions | image-metadata-api/start_production.py:16-20 | applying parsed lines never removes a variable, and the only errors are those of the assignment |
| Production.LoadLines | image-metadata-api/start_production.py:15-20 | loading a file's lines never removes a variable |
| Production.SkippedLineKeepsEnv | image-metadata-api/start_production.py:17-18 | a blank, comment or `=`-less line leaves the environment and the outcome unchanged |
| Production.LoadActionsUntouched | image-metadata-api/start_production.py:16-20 | when no line fails, a key no line assigns keeps its value or stays absent |
| Production.LoadActionsLastWins | image-metadata-api/start_production.py:16-20 | when no line fails, a key holds the value of the last line that assigns it |
| Production.LoadLinesUntouched | image-metadata-api/start_production.py:15-20 | the same for the lines of a file: keys the file does not assign keep their previous values |
| Production.LoadLinesLastWins | image-metadata-api/start_production.py:15-20 | the same for the lines of a file: for a repeated key the last valid line wins |
| Production.CollectStops | image-metadata-api/start_production.py:16-20 | once a line has raised, the lines after it are not applied |
| Production.Environment.LoadEnvFile | image-metadata-api/start_production.py:12-23 | a missing file leaves the environment untouched; otherwise the new environment and the error are exactly `LoadLines` of the old environment and the file's lines |
| Production.DefaultPortText | image-metadata-api/start_production.py:34 | the default port text `"8000"` is read as 8000 |
| Production.ConfigOf | image-metadata-api/start_production.py:33-35 | the settings fail exactly when the port text is not an integer literal, and an unset `API_PORT` always gives port 8000 |
| Production.ConfigDefaults | image-metadata-api/start_production.py:33-35 | with no `API_HOST` and `API_PORT` the server listens on `0.0.0.0:8000`; the log level is `LOG_LEVEL` when set and `info` otherwise |
| Production.ConfigReadsPort | image-metadata-api/start_production.py:33-35 | a port given as the decimal text of an integer is read as that integer, and a set host or log level is used as given |
| Production.StartProduction | image-metadata-api/start_production.py:29-35 | `main` loads the file into the environment, then reads the settings from the updated environment; an error from the loader ends it |

## Left out

- Pillow is not modelled:
  - opening and decoding the image;
  - `_getexif()` and `getexif()`;
  - the `TAGS` and `GPSTAGS` name tables.

  An image is an input holding its width, height and EXIF block, each tag
  already named. The same block stands for both `_getexif()` and
  `getexif()`.
- The FastAPI application, CORS set-up, `UploadFile` reading, `/` and
  `/health`, and the uvicorn start are framework glue and are not modelled.
  So are the `ALLOWED_ORIGINS` and `ENVIRONMENT` settings and every `print`.
- Excluded from the reply bodies:
  - the MD5 hash, the timestamps and the file name: foreign and
    nondeterministic calls;
  - the `color_info` and `technical` parts of `analyze_image_properties`:
    Pillow calls.
- A missing `content_type` makes `startswith` raise in the source; the model
  takes the content type as a string.
- Floats are exact reals. Binary representation error is not modelled, and
  `round` and `%.2f` are round-half-to-even on the exact value.
- Infinities, NaN and `-0.0` are not modelled.
- Metadata.EndpointOutcomes: the JSON rendering of the reply is not modelled.
  `JSONResponse` raises on a bytes or `IFDRational` value copied into
  `latitude_ref`, `longitude_ref` or `gps_date`, and the source then answers
  500. The model answers 200 for every decoded image.
- Metadata.GpsOnlySuccessExactly: the JSON rendering of the reply is not
  modelled. A bytes or `IFDRational` value copied into the record makes the
  source raise the 500 `HTTPException`, where the model reports `success`.
- Metadata.ExtractMetadata and Metadata.ExtractGpsOnly: the same JSON
  rendering failure is not modelled.
- PyNumbers.FloatRepr: `repr` is modelled only in its fixed-point form, as
  sign, integer part, point and the fraction digits of the value rounded to
  eight places. No read-back lemma is stated for it, and the exponent form
  that `repr` uses at both ends is not modelled: for magnitudes below `1e-4`
  and for magnitudes of `1e16` and above. Since the code applies no range
  check, a huge degree value reaches the second form.
- Gps.DmsToDecimalSpec: bounds the result to within half a unit of the eighth
  decimal of `d + m/60 + s/3600`. It does not state the float arithmetic of the
  source.
- Gps.GpsEntries: every non-empty `GPSInfo` value other than a dictionary is
  modelled as the unsupported-format error. In Python, indexing a non-empty
  tuple or bytes value by its own elements can also succeed, or raise
  `IndexError`, which the outer handler reports.
- ExifValues.Items: a dictionary is iterated as the names of its entries. In
  Python a Pillow IFD dictionary iterates as integer tag numbers, so a
  dictionary-valued coordinate or time stamp with three keys would unpack
  there. Pillow does not nest dictionaries under those tags.
- An `IFDRational` with a zero denominator is not modelled; a rational tag is
  its exact quotient.
- The other exceptions the outer handlers of `extract_gps_info` and
  `extract_exif_data` catch are not modelled, except those of `len()` and
  `int()` on the time stamp.
- `str()` and `json.dumps` rendering of stored tag values are not modelled:
  - `raw_gps_data` holds the collected values themselves;
  - the EXIF dictionary marks each value as stored plainly, stringified or
    JSON-dumped.
- ExifValues.IntOf: `int()` accepts only an optional sign and ASCII digits
  around whitespace. Underscores and non-ASCII digits are not modelled, and
  the error text for undecodable bytes is abbreviated. The error text wraps
  the argument in plain quotes, where Python prints its `repr`, which differs
  for text holding a quote, a backslash or a non-printable character. `int()`
  of bytes is modelled with the same whitespace set as `int()` of text, so
  the separators `\x1c`-`\x1f`, which Python strips only from text, are
  stripped from bytes too.
- Production.ConfigOf: it decides `int()` of `API_PORT` with the same parser
  as `ExifValues.IntOf`, so the same gaps apply: `API_PORT=8_000` gives 8000
  in Python and an error in the model, and the error text quotes the port
  text plainly instead of with `repr`.
- The file read of `load_env_file` is replaced by an optional sequence of
  lines, `None` meaning the file does not exist. Decoding errors are not
  modelled, and neither is the error of a file that exists but cannot be
  opened.
- `os.environ` is the `vars` field of an `Environment` object. Its effect on
  child processes is not modelled. The exceptions its assignment raises are
  modelled as on a POSIX system: the `ValueError` for a null character, and
  the `OSError` that `setenv()` gives for an empty name. Windows' own message
  for an empty name is not modelled.
- `main` stops at the settings. Printing them and running the server are not
  modelled.
