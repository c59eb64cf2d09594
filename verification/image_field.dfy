/** The recipe image field: an image may be given inline as a data URI
    `data:image/<ext>;base64,<payload>`, which is turned into a file named
    `temp.<ext>` holding the decoded payload; anything else is handed on
    to the framework's image field untouched. */
module ImageField {
  import opened Results
  import opened Text

  const DataPrefix: string := "data:image"
  const Marker: string := ";base64,"
  const FileStem: string := "temp."

  /** What the client sent for the image: a string, or an uploaded file. */
  datatype ImageInput = InlineText(text: string) | Upload(fileName: string)

  /** What goes on to the framework's image validation: the input itself,
      or a file built from a data URI. The payload is still base64 text;
      decoding it is the library's business. */
  datatype ImageValue = PassedOn(input: ImageInput) | InlineFile(name: string, payload: string)

  /** Unpacking the split into `format, imgstr` needs exactly two pieces;
      `pieces` is how many there were. */
  datatype ImageError = UnpackMismatch(pieces: nat)

  /** `s` is `header`, the marker, then `payload`, and the marker occurs
      nowhere inside the header or the payload. */
  predicate SplitsAtMarker(s: string, header: string, payload: string) {
    s == header + Marker + payload && !Contains(header, Marker) && !Contains(payload, Marker)
  }

  /** The marker occurs exactly once in `s`. */
  ghost predicate OneMarker(s: string) {
    exists header, payload :: SplitsAtMarker(s, header, payload)
  }

  /** The file extension: the text after the last "/" of the header
      (the whole header when it has no "/"). */
  function Extension(header: string): (ext: string)
    ensures '/' !in ext
    ensures |ext| <= |header| && header[|header| - |ext|..] == ext
    ensures |ext| == |header| || header[|header| - |ext| - 1] == '/'
  {
    var parts := Split(header, "/");
    JoinLast(parts, "/");
    ContainsChar(Last(parts), '/');
    Last(parts)
  }

  function ToInternalValue(data: ImageInput): (r: Result<ImageValue, ImageError>)
    ensures !(data.InlineText? && StartsWith(data.text, DataPrefix)) ==> r == Success(PassedOn(data))
    ensures data.InlineText? && StartsWith(data.text, DataPrefix) ==>
              (r.Success? <==> OneMarker(data.text)) && (r.Success? ==> r.value.InlineFile?)
    ensures r.Success? && r.value.InlineFile? ==>
              exists header :: SplitsAtMarker(data.text, header, r.value.payload)
                && StartsWith(header, DataPrefix)
                && r.value.name == FileStem + Extension(header)
  {
    if data.InlineText? && StartsWith(data.text, DataPrefix) then
      var parts := Split(data.text, Marker);
      MarkerCount(data.text);
      if |parts| == 2 then
        HeaderKeepsPrefix(data.text, parts[0], parts[1]);
        Success(InlineFile(FileStem + Extension(parts[0]), parts[1]))
      else
        Failure(UnpackMismatch(|parts|))
    else
      Success(PassedOn(data))
  }

  lemma MarkerHeadUnique()
    ensures HeadUnique(Marker)
  {
  }

  /** The split has two pieces exactly when the marker occurs once, and then
      the pieces are the header and the payload. */
  lemma MarkerCount(s: string)
    ensures |Split(s, Marker)| == 2 <==> OneMarker(s)
    ensures |Split(s, Marker)| == 2 ==> SplitsAtMarker(s, Split(s, Marker)[0], Split(s, Marker)[1])
  {
    var parts := Split(s, Marker);
    if |parts| == 2 {
      assert parts[1..] == [parts[1]];
      assert SplitsAtMarker(s, parts[0], parts[1]);
    }
    if OneMarker(s) {
      var h, p :| SplitsAtMarker(s, h, p);
      SplitOfDataUri(h, p);
    }
  }

  /** The header of a decomposition is unique: it is the first piece of the split. */
  lemma SplitOfDataUri(header: string, payload: string)
    requires !Contains(header, Marker) && !Contains(payload, Marker)
    ensures Split(header + Marker + payload, Marker) == [header, payload]
  {
    MarkerHeadUnique();
    SplitAfterHead(header, Marker, payload);
    SplitSingle(payload, Marker);
  }

  /** The data prefix holds no ';', so the marker cannot start inside it. */
  lemma HeaderKeepsPrefix(s: string, header: string, payload: string)
    requires StartsWith(s, DataPrefix)
    requires s == header + Marker + payload
    ensures StartsWith(header, DataPrefix)
  {
    assert s[|header|] == Marker[0] == ';';
    assert forall k :: 0 <= k < |DataPrefix| ==> DataPrefix[k] != ';';
    assert |header| >= |DataPrefix|;
    assert s[..|DataPrefix|] == header[..|DataPrefix|];
  }

  /** Building a data URI from a header and a payload and reading it back
      gives the payload and the file name `temp.<ext>` of that header. */
  lemma InlineFileRoundTrip(header: string, payload: string)
    requires StartsWith(header, DataPrefix)
    requires !Contains(header, Marker) && !Contains(payload, Marker)
    ensures ToInternalValue(InlineText(header + Marker + payload))
            == Success(InlineFile(FileStem + Extension(header), payload))
  {
    var s := header + Marker + payload;
    assert s[..|DataPrefix|] == header[..|DataPrefix|];
    SplitOfDataUri(header, payload);
  }
}
