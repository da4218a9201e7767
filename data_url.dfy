/** `Base64ImageField` (backend/api/serializers.py): an image field that also
    accepts a `data:` URL (section 3 of RFC 2397) carrying a base64 payload
    (section 4 of RFC 4648), followed by the checks of the image field it
    extends. Base64 decoding and the image-format check are library calls:
    both are parameters here. */
module DataUrl {
  import opened Prelude
  import opened Text
  import opened Models

  /** What a client may send for an image field: a JSON string, a JSON
      null, or a file from a multipart upload. */
  datatype Upload = Str(s: string) | Null | File(file: ImageFile)

  /** `to_internal_value` either hands a value on to the parent field or
      raises an exception that is not a validation error (the request then
      fails with a server error). */
  datatype Converted = Pass(data: Upload) | Crash

  const DATA_IMAGE: string := "data:image"
  const BASE64_SEPARATOR: string := ";base64,"

  /** Reasons the parent image field rejects a value. */
  datatype ImageError = NullImage | NotAFile | NoName | EmptyFile | InvalidImage

  /** The whole field: rejected with a field error, accepted with the file
      to store, or a server error. */
  datatype FieldOutcome = Accepted(file: ImageFile) | Rejected(error: ImageError) | Crashed

  lemma SeparatorCannotOverlap()
    ensures NoSelfOverlap(BASE64_SEPARATOR)
  {
    forall k | 0 < k < |BASE64_SEPARATOR|
      ensures BASE64_SEPARATOR[k..] != BASE64_SEPARATOR[..|BASE64_SEPARATOR| - k]
    {
      var tail := BASE64_SEPARATOR[k..];
      var head := BASE64_SEPARATOR[..|BASE64_SEPARATOR| - k];
      assert head[0] == ';';
      assert tail[0] != ';' by {
        assert tail[0] == BASE64_SEPARATOR[k];
      }
    }
  }

  /** `ext` is what `head.split('/')[-1]` gives: a suffix of `head` without
      a `/` that is either all of `head` or starts right after a `/`. Only
      one suffix of `head` has this shape. */
  predicate IsExtensionOf(ext: string, head: string) {
    && |ext| <= |head|
    && head[|head| - |ext|..] == ext
    && !Contains(ext, "/")
    && (|ext| == |head| || head[|head| - |ext| - 1] == '/')
  }

  /** The name a data URL gets is determined by its media type. */
  lemma ExtensionIsUnique(a: string, b: string, head: string)
    requires IsExtensionOf(a, head) && IsExtensionOf(b, head)
    ensures a == b
  {
    if |a| < |b| {
      LongerExtensionHasSlash(a, b, head);
      assert false;
    } else if |b| < |a| {
      LongerExtensionHasSlash(b, a, head);
      assert false;
    }
  }

  /** A suffix longer than an extension reaches the `/` before it. */
  lemma LongerExtensionHasSlash(a: string, b: string, head: string)
    requires IsExtensionOf(a, head) && |a| < |b| <= |head| && head[|head| - |b|..] == b
    ensures Contains(b, "/")
  {
    var k := |b| - |a| - 1;
    assert b[k] == head[|head| - |a| - 1] == '/';
    OneCharOccurs(b, '/', k);
  }

  /** The last piece of a split at `/` is the text after the last `/`. */
  lemma LastPieceIsExtension(head: string)
    ensures IsExtensionOf(Last(Split(head, "/")), head)
  {
    var parts := Split(head, "/");
    LastPieceIsSuffix(head, "/");
    LastPieceFollowsSeparator(head, '/');
    SplitPiecesFree(head, "/");
    assert Last(parts) == parts[|parts| - 1];
  }

  /** `Base64ImageField.to_internal_value` before it calls the parent: a
      string starting with `data:image` is unpacked into the text before and
      after `;base64,`, the extension is the text after the last `/` of the
      first part, and the decoded bytes become a file named `temp.<ext>`.
      Anything else is handed on unchanged. */
  function ToInternalValue(data: Upload, b64decode: string -> Option<seq<bv8>>): (r: Converted)
    ensures !(data.Str? && StartsWith(data.s, DATA_IMAGE)) ==> r == Pass(data)
    ensures data.Str? && StartsWith(data.s, DATA_IMAGE) ==>
      (r.Crash? <==> !OccursOnce(data.s, BASE64_SEPARATOR)
                     || b64decode(Split(data.s, BASE64_SEPARATOR)[1]).None?)
    ensures r.Pass? && r.data != data ==> r.data.File? && StartsWith(r.data.file.name, "temp.")
    ensures data.Str? && StartsWith(data.s, DATA_IMAGE) && r.Pass? ==>
      && |Split(data.s, BASE64_SEPARATOR)| == 2
      && r.data.File?
      && Some(r.data.file.content) == b64decode(Split(data.s, BASE64_SEPARATOR)[1])
      && StartsWith(r.data.file.name, "temp.")
      && IsExtensionOf(r.data.file.name[|"temp."|..], Split(data.s, BASE64_SEPARATOR)[0])
  {
    SeparatorCannotOverlap();
    if data.Str? && StartsWith(data.s, DATA_IMAGE) then
      SplitInTwo(data.s, BASE64_SEPARATOR);
      var parts := Split(data.s, BASE64_SEPARATOR);
      if |parts| != 2 then Crash
      else
        var ext := Last(Split(parts[0], "/"));
        match b64decode(parts[1])
        case None => Crash
        case Some(bytes) =>
          LastPieceIsExtension(parts[0]);
          assert ("temp." + ext)[|"temp."|..] == ext;
          Pass(File(ImageFile("temp." + ext, bytes)))
    else Pass(data)
  }

  /** The parent `ImageField.to_internal_value`: a null is refused, a value
      that is not a file is refused, then a file without a name, an empty
      file, and a file the image library does not accept. */
  function ParentImageField(data: Upload, isImage: ImageFile -> bool): (r: FieldOutcome)
    ensures r.Accepted? <==> data.File? && data.file.name != [] && data.file.content != [] && isImage(data.file)
    ensures r.Accepted? ==> r.file == data.file
    ensures !r.Crashed?
  {
    match data
    case Null => Rejected(NullImage)
    case Str(_) => Rejected(NotAFile)
    case File(f) =>
      if f.name == [] then Rejected(NoName)
      else if f.content == [] then Rejected(EmptyFile)
      else if !isImage(f) then Rejected(InvalidImage)
      else Accepted(f)
  }

  /** The field as the serializer runs it. A JSON null never reaches
      `to_internal_value`: the field refuses it first. */
  function RunImageField(data: Upload, b64decode: string -> Option<seq<bv8>>, isImage: ImageFile -> bool): FieldOutcome {
    if data.Null? then Rejected(NullImage)
    else match ToInternalValue(data, b64decode)
      case Crash => Crashed
      case Pass(d) => ParentImageField(d, isImage)
  }

  /** The data URL a client builds for an image with extension `ext` whose
      bytes encode to `payload`. */
  function DataUrlOf(ext: string, payload: string): string {
    DATA_IMAGE + "/" + ext + BASE64_SEPARATOR + payload
  }

  /** No character of `data:image/<ext>` is a `;` when `ext` holds none. */
  lemma HeadHasNoSemicolon(ext: string, j: int)
    requires !Contains(ext, ";") && 0 <= j < |DATA_IMAGE + "/" + ext|
    ensures (DATA_IMAGE + "/" + ext)[j] != ';'
  {
    var k := j - |DATA_IMAGE| - 1;
    if k >= 0 {
      OneCharOccurs(ext, ';', k);
    }
  }

  /** The separator can only occur where it was put: neither the media type
      nor the payload of a built URL contains `;base64,` when the extension
      and the payload do not. */
  lemma SeparatorOnceInBuiltUrl(ext: string, payload: string)
    requires !Contains(ext, BASE64_SEPARATOR) && !Contains(payload, BASE64_SEPARATOR)
    requires !Contains(ext, ";")
    ensures OccursOnce(DataUrlOf(ext, payload), BASE64_SEPARATOR)
    ensures Split(DataUrlOf(ext, payload), BASE64_SEPARATOR) == [DATA_IMAGE + "/" + ext, payload]
  {
    var head := DATA_IMAGE + "/" + ext;
    var url := DataUrlOf(ext, payload);
    var L := |BASE64_SEPARATOR|;
    var i := |head|;
    assert url[..i] == head && url[i..i + L] == BASE64_SEPARATOR && url[i + L..] == payload;
    forall j | 0 <= j < i ensures !OccursAt(url, BASE64_SEPARATOR, j) {
      HeadHasNoSemicolon(ext, j);
      if OccursAt(url, BASE64_SEPARATOR, j) {
        OccurrenceStartsWith(url, BASE64_SEPARATOR, j);
        assert false;
      }
    }
    FindIsLeftmost(url, BASE64_SEPARATOR, i);
    SeparatorCannotOverlap();
    OnlyOccurrence(url, BASE64_SEPARATOR, i);
    assert OccursOnce(url, BASE64_SEPARATOR);
    SplitAt(url, BASE64_SEPARATOR, i);
    SinglePieceIsWhole(payload, BASE64_SEPARATOR);
  }

  /** The extension of `data:image/<ext>` is `ext`, for an extension
      without a slash. */
  lemma ExtensionOfMediaType(ext: string)
    requires !Contains(ext, "/")
    ensures Last(Split(DATA_IMAGE + "/" + ext, "/")) == ext
  {
    var s := DATA_IMAGE + "/" + ext;
    var i := |DATA_IMAGE|;
    OneCharOccurs(s, '/', i);
    forall j | 0 <= j < i ensures !OccursAt(s, "/", j) {
      OneCharOccurs(s, '/', j);
      assert s[j] == DATA_IMAGE[j];
    }
    FindIsLeftmost(s, "/", i);
    SplitAt(s, "/", i);
    assert s[i + 1..] == ext;
    SinglePieceIsWhole(ext, "/");
    LastOfCons(s[..i], Split(ext, "/"));
  }

  /** Round trip: a data URL built from an extension and a payload is
      turned into a file named `temp.<ext>` holding the decoded payload;
      when the payload does not decode, the request fails. */
  lemma DataUrlRoundTrip(ext: string, payload: string, b64decode: string -> Option<seq<bv8>>)
    requires !Contains(ext, BASE64_SEPARATOR) && !Contains(payload, BASE64_SEPARATOR)
    requires !Contains(ext, ";") && !Contains(ext, "/")
    ensures b64decode(payload).Some? ==>
      ToInternalValue(Str(DataUrlOf(ext, payload)), b64decode)
        == Pass(File(ImageFile("temp." + ext, b64decode(payload).value)))
    ensures b64decode(payload).None? ==>
      ToInternalValue(Str(DataUrlOf(ext, payload)), b64decode) == Crash
  {
    var url := DataUrlOf(ext, payload);
    assert StartsWith(url, DATA_IMAGE) by {
      assert url[..|DATA_IMAGE|] == DATA_IMAGE;
    }
    SeparatorOnceInBuiltUrl(ext, payload);
    ExtensionOfMediaType(ext);
  }

  /** A file accepted by the field always has a name, so the recipe
      serializer's `validate_image` ("the image is falsy") never fires on
      a value the field produced. */
  lemma AcceptedFileHasName(data: Upload, b64decode: string -> Option<seq<bv8>>, isImage: ImageFile -> bool)
    ensures RunImageField(data, b64decode, isImage).Accepted? ==>
      RunImageField(data, b64decode, isImage).file.name != []
  {}
}
