# TecDoc catalogue models: file paths and criteria values

This project models the derived-value logic of the django-tecdoc data models
in Dafny and proves properties of it. The rest of those models is schema
declaration.

- **Graphics** (`graphics.dfy`). A stored graphics row (`File`) has a
  document type with an extension, a table number (`db_number`) and a numeric
  file name. It is read either as an `Image` or as a `PdfFile`. These are the
  two variants of `GraphicsFile`, and `RelativePath` is defined by a match on
  them.
  - An image is served at `images/<db_number>/<filename>.<ext>`. The
    extension is lower-cased, and `jp2` (in any case) becomes `jpg`.
  - A PDF is served at `/pdf/000<filename>.pdf`. The file name is not padded
    further.
  - `AbsolutePath` puts the configured file host in front of the relative
    path. The host is an explicit parameter.
  - Each path builder has an inverse parser (`ParseImagePath`,
    `ParsePdfPath`). The round-trip lemmas show which fields a path
    determines.
- **Criteria** (`criteria.py`, modelled in `criteria.dfy`). `GetValue` is
  Python's `value or description`. It returns the raw value string when that
  is non-empty, and otherwise the description reference, which may be
  absent. `CriteriaValue` records which of the two operands was returned.
- **Strings** (`strings.dfy`). This module holds the text operations that the
  path builders need:
  - decimal rendering of integers, which is what `%s` does to an `int`;
  - its inverse `ParseInt`, which accepts only canonical numerals;
  - ASCII lower-casing, which is what `.lower()` does to the extension.
- **Wrappers** (`wrappers.dfy`) defines `Option`.

All of the modelled code is pure. It is modelled as datatypes, functions and
lemmas. Because `GetValue` is a function on an immutable row value, it cannot
change any field of the row.

## Model

| member | source | states |
|---|---|---|
| `Strings.IntToString` | tecdoc/models/graphics.py:40-42 | An integer is rendered as a canonical decimal numeral: digits with no leading zero, and a leading '-' exactly when the number is negative. |
| `Strings.IntToStringRoundTrip` | tecdoc/models/graphics.py:40-42 | Reading a rendered integer back with `ParseInt` gives that integer. |
| `Strings.ParseIntRoundTrip` | tecdoc/models/graphics.py:40-42 | Every canonical numeral is the rendering of the number it denotes. So the renderings are exactly the canonical numerals. |
| `Strings.ParseIntExact` | tecdoc/models/graphics.py:40-42 | A string that `ParseInt` reads as `n` is exactly the rendering of `n`. |
| `Strings.IntToStringInjective` | tecdoc/models/graphics.py:40-42 | Distinct integers render differently. |
| `Strings.IntToStringAvoids` | tecdoc/models/graphics.py:40-42 | A rendering contains no character other than digits and '-'. In particular it has no '/' and no '.', the path separators. |
| `Strings.Lower` | tecdoc/models/graphics.py:39 | Lower-casing keeps the length and maps each character through ASCII case folding. |
| `Strings.LowerEqualIff` | tecdoc/models/graphics.py:39 | Two strings lower-case to the same string if and only if they are equal up to ASCII case. |
| `Strings.LowerFixesIff` | tecdoc/models/graphics.py:39 | Lower-casing leaves a string unchanged if and only if it has no upper-case letter. |
| `Strings.LowerIdempotent` | tecdoc/models/graphics.py:39 | Lower-casing twice gives the same as lower-casing once. |
| `Strings.LowerKeeps` | tecdoc/models/graphics.py:39 | A character that is not a letter occurs in the lower-cased string if and only if it occurs in the original. |
| `Graphics.NormalizeExt` | tecdoc/models/graphics.py:39-42 | The served extension has the stored extension's length and no upper-case letter, and it is never "jp2". A stored extension equal to "jp2" up to case is served as "jpg". Any other extension is served as a case-insensitively equal string. |
| `Graphics.NormalizeExtIdempotent` | tecdoc/models/graphics.py:39-42 | Normalising an extension a second time leaves it unchanged. |
| `Graphics.NormalizeExtFits` | tecdoc/models/graphics.py:9 | For an extension within the 9-character DOC_EXTENSION width, the served extension also fits that width. |
| `Graphics.ImageRelativePath` | tecdoc/models/graphics.py:38-42 | An image path starts with `images/`. |
| `Graphics.PdfRelativePath` | tecdoc/models/graphics.py:61-62 | A PDF path starts with `/pdf/000` and ends with `.pdf`. For every file, the text between them is a canonical numeral, so there is no padding beyond the three fixed zeros. |
| `Graphics.RelativePath` | tecdoc/models/graphics.py:38-42 | Dispatches on the kind of file. An `Image` gets a path starting with `images/`. A `PdfFile` gets a path starting with `/pdf/000` and ending with `.pdf`, built by `PdfRelativePath`. |
| `Graphics.ImagePathRoundTrip` | tecdoc/models/graphics.py:38-42 | Parsing an image path gives back exactly the table number, the file name and the normalised extension. |
| `Graphics.ParseImagePathExact` | tecdoc/models/graphics.py:38-42 | Any string the image parser accepts is exactly `images/` + the rendered table number + `/` + the rendered file name + `.` + the extension. Padded numerals and "-0" are rejected. |
| `Graphics.ImagePathIff` | tecdoc/models/graphics.py:38-42 | A string is an image's path if and only if it parses to that image's table number, file name and served extension. Together with the round trip, this fixes the path string exactly. |
| `Graphics.ImagePathInjective` | tecdoc/models/graphics.py:38-42 | Two images share a path only if they agree on table number, file name and served extension. |
| `Graphics.ImagePathExtension` | tecdoc/models/graphics.py:39-42 | The extension part of an image path has no upper-case letter and is never "jp2". It is "jpg" when the lower-cased stored extension is "jp2", and the lower-cased stored extension otherwise. |
| `Graphics.ImagePathEndsWithJp2Iff` | tecdoc/models/graphics.py:38-42 | An image path ends in ".jp2" if and only if the lower-cased stored extension itself ends in ".jp2". |
| `Graphics.ImagePathNeverJp2` | tecdoc/models/graphics.py:38-42 | If the stored extension contains no '.', the image path never ends in ".jp2". |
| `Graphics.ImageExampleJp2` | tecdoc/models/graphics.py:38-42 | Table 7, file 42 with extension "JP2" gives `images/7/42.jpg`. |
| `Graphics.ImageExamplePng` | tecdoc/models/graphics.py:38-42 | Table 7, file 42 with extension "PNG" gives `images/7/42.png`. |
| `Graphics.ImageJp2AndJpgCollide` | tecdoc/models/graphics.py:38-42 | A "JP2" row and a "jpg" row with the same numbers get the same path. |
| `Graphics.PdfPathRoundTrip` | tecdoc/models/graphics.py:61-62 | Parsing a PDF path gives back the file name. |
| `Graphics.PdfPathIff` | tecdoc/models/graphics.py:61-62 | A string is a PDF's path if and only if it parses to that file name. So `/pdf/000000015.pdf` is not the path of file 15. |
| `Graphics.PdfPaddedPathRejected` | tecdoc/models/graphics.py:61-62 | `/pdf/000000015.pdf` is not read back as a PDF path, because its file name is padded. |
| `Graphics.PdfPathDependsOnFilenameOnly` | tecdoc/models/graphics.py:61-62 | Two PDF paths are equal if and only if the file names are equal. The document type, the extension and the table number do not matter. |
| `Graphics.PdfExample` | tecdoc/models/graphics.py:61-62 | File 15 gives `/pdf/00015.pdf`: exactly three zeros and no further padding. |
| `Graphics.AbsolutePath` | tecdoc/models/graphics.py:29-30 | The file host is a prefix of the absolute path, and what follows the host is the relative path. |
| `Graphics.AbsoluteImagePathRoundTrip` | tecdoc/models/graphics.py:29-42 | Removing the host from an image's absolute path and parsing the rest gives back the image's fields. |
| `Graphics.AbsolutePdfPathRoundTrip` | tecdoc/models/graphics.py:29-30 | Removing the host from a PDF's absolute path and parsing the rest gives back its file name. |
| `Criteria.TypeTag` | tecdoc/models/criteria.py:22-23 | The type tag of a criterion within the one-character CRI_TYPE width is either empty or exactly one character. |
| `Criteria.GetValue` | tecdoc/models/criteria.py:60-61 | The raw value is returned, unchanged, if and only if it is non-empty. Otherwise the description reference is returned as it is. |
| `Criteria.GetValueIsAField` | tecdoc/models/criteria.py:60-61 | The result is always either the row's value or its description. |
| `Criteria.GetValuePrefersValue` | tecdoc/models/criteria.py:60-61 | When the value is non-empty, replacing the description does not change the result. |
| `Criteria.GetValueFallsBack` | tecdoc/models/criteria.py:60-61 | When the value is empty, the result is the description, whether present or absent. |
| `Criteria.GetValueDependsOnValueAndDescription` | tecdoc/models/criteria.py:60-61 | Two rows with the same value and description get the same result, whatever their part, group, criterion and sort key. |
| `Criteria.GetValueFits` | tecdoc/models/criteria.py:48-61 | A raw value returned from a row within the 60-character ACR_VALUE width has at most 60 characters. |

## Left out

- Django field, `ForeignKey` and `Meta` declarations (table names, proxy options, `verbose_name` labels): these are schema configuration with no behaviour.
- `TecdocManager` / `TecdocManagerWithDes` (tecdoc/models/criteria.py:32): their source is not part of this model, and they build ORM queries.
- Language filtering, eager loading of designations, exclusion of rows whose description id is 0, ordering by `sorting`, and the display-value and unit-label accessors of a criterion: there is no code for any of these in the modelled files.
- `PartImage` and `PartPdf` (tecdoc/models/graphics.py:44-53, 65-74): these are link rows with no logic.
- The `Criteria.child` successor chain: it is only a foreign-key declaration and nothing traverses it. The model keeps the successor as an id field.
- Reading `FILE_HOST` from the settings module, and loading the type row and the designation rows from the database. The host is a parameter. The extension and the designation text are plain fields.
- A description foreign key that points to a missing row raises an ORM exception in the source. The model writes an absent description as `None` and has no exception path.
- A plain `File` that is neither an `Image` nor a `PdfFile` has no `relative_path`, so its `absolute_path` would raise. The variant type has no case for it.
- Strings.Lower: folds only the ASCII letters A-Z. The source's `.lower()` on a unicode string also folds non-ASCII letters.
- Graphics.ImagePathNeverJp2: holds only for extensions without a '.'. For an extension such as "x.jp2" the path does end in ".jp2". `Graphics.ImagePathEndsWithJp2Iff` gives the exact condition.
- The source is Python 2. Its unbounded `long` and `int` both render through `%s` without a suffix, so the model uses unbounded integers.
