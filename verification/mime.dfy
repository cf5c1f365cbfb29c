/** Picking the export format of a native Google document
    (`choose_mime_type`) and giving a file name the extension its MIME type
    calls for (the extension step of `assign_file_names`). */
module MimeTypes {
  import opened Seqs
  import opened Text

  const OoxmlMarker: string := "vnd.openxmlformats-officedocument"
  const OpenDocumentMarker: string := "vnd.oasis.opendocument"
  const PdfType: string := "application/pdf"
  const ImagePrefix: string := "image/"

  const GoogleDocument: string := "application/vnd.google-apps.document"
  const GoogleSpreadsheet: string := "application/vnd.google-apps.spreadsheet"
  const GooglePresentation: string := "application/vnd.google-apps.presentation"
  const GoogleDrawing: string := "application/vnd.google-apps.drawing"

  const DocxType: string := "application/" + OoxmlMarker + ".wordprocessingml.document"
  const XlsxType: string := "application/" + OoxmlMarker + ".spreadsheetml.sheet"
  const PptxType: string := "application/" + OoxmlMarker + ".presentationml.presentation"

  // ---------------------------------------------------------------------------
  // choose_mime_type

  predicate IsOoxml(t: string) { Contains(t, OoxmlMarker) }
  predicate IsOpenDocument(t: string) { Contains(t, OpenDocumentMarker) }
  predicate IsPdf(t: string) { Contains(t, PdfType) }
  predicate IsImage(t: string) { StartsWith(t, ImagePrefix) }

  /** The preference rank of an export format: Office Open XML first, then
      OpenDocument, then PDF, then images, then anything else. A format that
      matches several families takes the best rank among them. */
  function Rank(t: string): nat
  {
    if IsOoxml(t) then 0
    else if IsOpenDocument(t) then 1
    else if IsPdf(t) then 2
    else if IsImage(t) then 3
    else 4
  }

  /** The native Google types that have a fixed export format. */
  predicate IsGoogleNative(t: string)
  {
    t == GoogleDocument || t == GoogleSpreadsheet || t == GooglePresentation || t == GoogleDrawing
  }

  /** `choose_mime_type`: the first offered format of the best family; with
      nothing offered, the fixed export of a native Google type, and otherwise
      the document's own type. */
  function ChooseMimeType(choices: seq<string>, documentType: string): (r: string)
    ensures choices != [] ==> r in choices
    ensures choices == [] && IsGoogleNative(documentType) ==> Rank(r) <= 2
    ensures choices == [] && !IsGoogleNative(documentType) ==> r == documentType
  {
    var fmt :=
      if Filter(choices, IsOoxml) != [] then Filter(choices, IsOoxml)
      else if Filter(choices, IsOpenDocument) != [] then Filter(choices, IsOpenDocument)
      else if Filter(choices, IsPdf) != [] then Filter(choices, IsPdf)
      else if Filter(choices, IsImage) != [] then Filter(choices, IsImage)
      else choices;
    if fmt != [] then
      assert fmt[0] in fmt;
      fmt[0]
    else if documentType == GoogleDocument then
      RankOfExports();
      DocxType
    else if documentType == GoogleSpreadsheet then
      RankOfExports();
      XlsxType
    else if documentType == GooglePresentation then
      RankOfExports();
      PptxType
    else if documentType == GoogleDrawing then
      RankOfExports();
      PdfType
    else
      documentType
  }

  lemma RankOfExports()
    ensures Rank(DocxType) == 0 && Rank(XlsxType) == 0 && Rank(PptxType) == 0
    ensures Rank(PdfType) <= 2
  {
    ContainsMiddle("application/", OoxmlMarker, ".wordprocessingml.document");
    ContainsMiddle("application/", OoxmlMarker, ".spreadsheetml.sheet");
    ContainsMiddle("application/", OoxmlMarker, ".presentationml.presentation");
    ContainsMiddle("", PdfType, "");
    assert "" + PdfType + "" == PdfType;
  }

  /** The chosen format is the first one of the best rank on offer: no offered
      format ranks better, and every earlier one ranks worse. */
  lemma {:induction false} ChooseMimeTypeIsFirstBest(choices: seq<string>, documentType: string) returns (i: nat)
    requires choices != []
    ensures i < |choices| && choices[i] == ChooseMimeType(choices, documentType)
    ensures forall j :: 0 <= j < |choices| ==> Rank(choices[i]) <= Rank(choices[j])
    ensures forall j :: 0 <= j < i ==> Rank(choices[j]) > Rank(choices[i])
  {
    if Filter(choices, IsOoxml) != [] {
      i := FilterHead(choices, IsOoxml);
    } else {
      FilterEmpty(choices, IsOoxml);
      if Filter(choices, IsOpenDocument) != [] {
        i := FilterHead(choices, IsOpenDocument);
      } else {
        FilterEmpty(choices, IsOpenDocument);
        if Filter(choices, IsPdf) != [] {
          i := FilterHead(choices, IsPdf);
        } else {
          FilterEmpty(choices, IsPdf);
          i := ImageOrFirst(choices, documentType);
        }
      }
    }
  }

  /** The last two tiers: the first image, or else the first format. */
  lemma ImageOrFirst(choices: seq<string>, documentType: string) returns (i: nat)
    requires choices != []
    requires Filter(choices, IsOoxml) == [] && Filter(choices, IsOpenDocument) == [] && Filter(choices, IsPdf) == []
    requires forall j :: 0 <= j < |choices| ==> Rank(choices[j]) >= 3
    ensures i < |choices| && choices[i] == ChooseMimeType(choices, documentType)
    ensures forall j :: 0 <= j < |choices| ==> Rank(choices[i]) <= Rank(choices[j])
    ensures forall j :: 0 <= j < i ==> Rank(choices[j]) > Rank(choices[i])
  {
    if Filter(choices, IsImage) != [] {
      i := FilterHead(choices, IsImage);
    } else {
      FilterEmpty(choices, IsImage);
      i := 0;
    }
  }

  /** Nothing offered: the fixed exports of the four native Google types. */
  lemma NativeExports(choices: seq<string>)
    requires choices == []
    ensures ChooseMimeType(choices, GoogleDocument) == DocxType
    ensures ChooseMimeType(choices, GoogleSpreadsheet) == XlsxType
    ensures ChooseMimeType(choices, GooglePresentation) == PptxType
    ensures ChooseMimeType(choices, GoogleDrawing) == PdfType
  {
    FilterEmpty(choices, IsOoxml);
    FilterEmpty(choices, IsOpenDocument);
    FilterEmpty(choices, IsPdf);
    FilterEmpty(choices, IsImage);
  }

  /** PDF is preferred over an image, whatever their order. */
  lemma PdfBeatsImage(choices: seq<string>)
    requires choices == ["image/png", PdfType]
    ensures ChooseMimeType(choices, GoogleDrawing) == PdfType
  {
    var i := ChooseMimeTypeIsFirstBest(choices, GoogleDrawing);
    var png, pdf := choices[0], choices[1];
    assert |png| < |PdfType| < |OpenDocumentMarker| < |OoxmlMarker|;
    assert !IsOoxml(png) && !IsOpenDocument(png) && !IsPdf(png);
    assert png[..|ImagePrefix|] == ImagePrefix;
    assert !IsOoxml(pdf) && !IsOpenDocument(pdf);
    RankOfExports();
    assert Rank(png) == 3 && Rank(pdf) == 2;
  }

  // ---------------------------------------------------------------------------
  // Extensions

  /** `s.lower()`, one character at a time; `lowerChar` gives the lower-case
      form of a single character (a character may lower to several). */
  function Lower(s: string, lowerChar: char -> string): string
    decreases |s|
  {
    if |s| == 0 then "" else lowerChar(s[0]) + Lower(s[1..], lowerChar)
  }

  /** Lowering distributes over concatenation. */
  lemma {:induction false} LowerConcat(a: string, b: string, lowerChar: char -> string)
    ensures Lower(a + b, lowerChar) == Lower(a, lowerChar) + Lower(b, lowerChar)
    decreases |a|
  {
    if |a| > 0 {
      assert (a + b)[1..] == a[1..] + b;
      LowerConcat(a[1..], b, lowerChar);
    } else {
      assert a + b == b;
    }
  }

  /** Some non-empty extension of the list ends the file name, ignoring case.
      An empty extension never counts: it is a false value in the generator. */
  predicate HasKnownExtension(filename: string, extensions: seq<string>, lowerChar: char -> string)
  {
    exists k :: 0 <= k < |extensions| && extensions[k] != "" &&
      EndsWith(Lower(filename, lowerChar), Lower(extensions[k], lowerChar))
  }

  /** The extension step: when the MIME type has extensions and the name ends
      in none of them, the first one (`guess_extension`) is appended.
      `extensionsOf` stands for `mimetypes.guess_all_extensions`; an unknown
      or missing type has none. */
  function AddExtension(filename: string, mimeType: string, extensionsOf: string -> seq<string>,
                        lowerChar: char -> string): (r: string)
    ensures StartsWith(r, filename)
    ensures extensionsOf(mimeType) == [] ==> r == filename
    ensures HasKnownExtension(filename, extensionsOf(mimeType), lowerChar) ==> r == filename
    ensures extensionsOf(mimeType) != [] && !HasKnownExtension(filename, extensionsOf(mimeType), lowerChar) ==>
              r == filename + extensionsOf(mimeType)[0]
  {
    var extensions := extensionsOf(mimeType);
    if extensions != [] && !HasKnownExtension(filename, extensions, lowerChar) then
      assert (filename + extensions[0])[..|filename|] == filename;
      filename + extensions[0]
    else
      filename
  }

  /** After the step the name ends in a known extension, unless the type has
      none (or its first one is empty). */
  lemma AddExtensionEndsKnown(filename: string, mimeType: string, extensionsOf: string -> seq<string>,
                              lowerChar: char -> string)
    requires extensionsOf(mimeType) != [] && extensionsOf(mimeType)[0] != ""
    ensures HasKnownExtension(AddExtension(filename, mimeType, extensionsOf, lowerChar), extensionsOf(mimeType), lowerChar)
  {
    var extensions := extensionsOf(mimeType);
    if !HasKnownExtension(filename, extensions, lowerChar) {
      var e := extensions[0];
      LowerConcat(filename, e, lowerChar);
      var lowered := Lower(filename + e, lowerChar);
      assert lowered[|lowered| - |Lower(e, lowerChar)|..] == Lower(e, lowerChar);
      assert EndsWith(lowered, Lower(e, lowerChar));
    }
  }

  /** Running the step twice adds nothing the first run did not. */
  lemma AddExtensionIdempotent(filename: string, mimeType: string, extensionsOf: string -> seq<string>,
                               lowerChar: char -> string)
    ensures var once := AddExtension(filename, mimeType, extensionsOf, lowerChar);
            AddExtension(once, mimeType, extensionsOf, lowerChar) == once
  {
    var extensions := extensionsOf(mimeType);
    if extensions != [] && !HasKnownExtension(filename, extensions, lowerChar) {
      if extensions[0] != "" {
        AddExtensionEndsKnown(filename, mimeType, extensionsOf, lowerChar);
      } else {
        assert filename + extensions[0] == filename;
      }
    }
  }
}
