/**
 The data-URI avatar of a user: `SetAvatarSerializer.validate_avatar` (PUT
 /users/me/avatar/) and `UserCreateSerializer.validate_avatar` (sign-up), and
 the file their `save`/`create` bodies store. A value looks like
 `data:image/png;base64,<payload>`; it is split once on `;base64,`, the MIME
 type is what is left of the first part after removing every `data:`, and the
 payload goes through the base64 decoder, which the model takes as a
 parameter yielding the decoded length or failing.

 Python's two-name unpacking of `value.split(";base64,")` raises `ValueError`
 when the marker occurs twice or more; nothing catches it, so the request ends
 in a server error. `Crash` is that outcome. The `...AsWritten` validators
 keep it; the `...Checked` validators refuse such a value with the base64
 format error instead, and the stored-file functions use those.
 */
module Avatar {
  import opened Common
  import opened Strings

  const DataScheme: string := "data:"
  const ImagePrefix: string := "data:image"
  const Base64Marker: string := ";base64,"

  /** The MIME types both validators accept. */
  const AllowedMimes: set<string> := {"image/jpeg", "image/jpg", "image/png"}
  /** The MIME types stored with the `jpg` extension; anything else gets `png`. */
  const JpegMimes: set<string> := {"image/jpeg", "image/jpg"}

  const MaxAvatarSizeMb: nat := 5
  const BytesInMb: nat := 1024 * 1024
  const MaxAvatarSizeBytes: nat := MaxAvatarSizeMb * BytesInMb

  /** The `ValidationError` messages, one per check. */
  datatype AvatarError =
    | InvalidImageFormat      // missing `data:` / `data:image` prefix
    | InvalidBase64Format     // no `;base64,` marker
    | UnsupportedImageFormat  // MIME type outside the allow-list
    | DecodingFailed          // `base64.b64decode` raised
    | FileTooLarge            // decoded size above the ceiling

  /** `Valid` is the value `validate_avatar` returns; `Crash` the uncaught `ValueError`. */
  datatype Outcome<T> = Valid(value: T) | Invalid(error: AvatarError) | Crash

  /** The base64 decoder: the number of decoded bytes, or `None` where it raises. */
  type Decoder = string -> Option<nat>

  /** The marker occurs exactly once, so the two-name unpacking succeeds. */
  predicate SingleMarker(value: string)
  {
    Occurrences(value, Base64Marker) == 1
  }

  function FormatPart(value: string): string
    requires SingleMarker(value)
  {
    Split(value, Base64Marker)[0]
  }

  function DataPart(value: string): string
    requires SingleMarker(value)
  {
    Split(value, Base64Marker)[1]
  }

  /** `format_part.replace("data:", "")` */
  function Mime(value: string): string
    requires SingleMarker(value)
  {
    ReplaceAll(FormatPart(value), DataScheme, "")
  }

  /**
   The checks after the prefix, as written: the marker test, the unpacking, the
   MIME allow-list, the decoder and, when `ceiling` is given, the size limit.
   */
  function PayloadAsWritten(value: string, decode: Decoder, ceiling: Option<nat>): (r: Outcome<string>)
    ensures r.Crash? <==> Occurrences(value, Base64Marker) >= 2
    ensures r.Valid? ==> r.value == value
    ensures !Contains(value, Base64Marker) ==> r == Invalid(InvalidBase64Format)
    ensures SingleMarker(value) && Mime(value) !in AllowedMimes ==> r == Invalid(UnsupportedImageFormat)
    ensures SingleMarker(value) && Mime(value) in AllowedMimes && decode(DataPart(value)).None? ==>
      r == Invalid(DecodingFailed)
    ensures (&& SingleMarker(value) && Mime(value) in AllowedMimes && decode(DataPart(value)).Some?
             && ceiling.Some? && decode(DataPart(value)).value > ceiling.value)
            ==> r == Invalid(FileTooLarge)
    ensures r.Valid? <==>
      && SingleMarker(value)
      && Mime(value) in AllowedMimes
      && decode(DataPart(value)).Some?
      && (ceiling.Some? ==> decode(DataPart(value)).value <= ceiling.value)
  {
    ContainsIffOccurs(value, Base64Marker);
    if !Contains(value, Base64Marker) then Invalid(InvalidBase64Format)
    else
      var parts := Split(value, Base64Marker);
      if |parts| != 2 then Crash
      else
        var mime := ReplaceAll(parts[0], DataScheme, "");
        if mime !in AllowedMimes then Invalid(UnsupportedImageFormat)
        else match decode(parts[1])
          case None => Invalid(DecodingFailed)
          case Some(size) =>
            if ceiling.Some? && size > ceiling.value then Invalid(FileTooLarge) else Valid(value)
  }

  /** The same checks with the unpacking guarded: a repeated marker is a format error. */
  function PayloadChecked(value: string, decode: Decoder, ceiling: Option<nat>): (r: Outcome<string>)
    ensures !r.Crash?
    ensures Occurrences(value, Base64Marker) >= 2 ==> r == Invalid(InvalidBase64Format)
    ensures !Contains(value, Base64Marker) ==> r == Invalid(InvalidBase64Format)
    ensures SingleMarker(value) && Mime(value) !in AllowedMimes ==> r == Invalid(UnsupportedImageFormat)
    ensures SingleMarker(value) && Mime(value) in AllowedMimes && decode(DataPart(value)).None? ==>
      r == Invalid(DecodingFailed)
    ensures (&& SingleMarker(value) && Mime(value) in AllowedMimes && decode(DataPart(value)).Some?
             && ceiling.Some? && decode(DataPart(value)).value > ceiling.value)
            ==> r == Invalid(FileTooLarge)
    ensures r.Valid? ==> r.value == value
    ensures r.Valid? <==>
      && SingleMarker(value)
      && Mime(value) in AllowedMimes
      && decode(DataPart(value)).Some?
      && (ceiling.Some? ==> decode(DataPart(value)).value <= ceiling.value)
  {
    if Occurrences(value, Base64Marker) >= 2 then Invalid(InvalidBase64Format)
    else PayloadAsWritten(value, decode, ceiling)
  }

  /** `SetAvatarSerializer.validate_avatar` as written. */
  function SetAvatarAsWritten(value: string, decode: Decoder): (r: Outcome<string>)
    ensures !StartsWith(value, DataScheme) ==> r == Invalid(InvalidImageFormat)
    ensures StartsWith(value, DataScheme) && !Contains(value, Base64Marker) ==> r == Invalid(InvalidBase64Format)
    ensures r.Crash? <==> StartsWith(value, DataScheme) && Occurrences(value, Base64Marker) >= 2
    ensures r.Valid? ==> r.value == value
    ensures r.Valid? <==>
      && StartsWith(value, DataScheme)
      && SingleMarker(value)
      && Mime(value) in AllowedMimes
      && decode(DataPart(value)).Some?
      && decode(DataPart(value)).value <= MaxAvatarSizeBytes
  {
    ContainsIffOccurs(value, Base64Marker);
    if |value| == 0 || !StartsWith(value, DataScheme) then Invalid(InvalidImageFormat)
    else PayloadAsWritten(value, decode, Some(MaxAvatarSizeBytes))
  }

  /** `SetAvatarSerializer.validate_avatar` with a repeated marker refused. */
  function SetAvatarChecked(value: string, decode: Decoder): (r: Outcome<string>)
    ensures !r.Crash?
    ensures !StartsWith(value, DataScheme) ==> r == Invalid(InvalidImageFormat)
    ensures StartsWith(value, DataScheme) && !Contains(value, Base64Marker) ==> r == Invalid(InvalidBase64Format)
    ensures StartsWith(value, DataScheme) && Occurrences(value, Base64Marker) >= 2 ==> r == Invalid(InvalidBase64Format)
    ensures StartsWith(value, DataScheme) && SingleMarker(value) && Mime(value) !in AllowedMimes ==>
      r == Invalid(UnsupportedImageFormat)
    ensures (&& StartsWith(value, DataScheme) && SingleMarker(value) && Mime(value) in AllowedMimes
             && decode(DataPart(value)).None?)
            ==> r == Invalid(DecodingFailed)
    ensures (&& StartsWith(value, DataScheme) && SingleMarker(value) && Mime(value) in AllowedMimes
             && decode(DataPart(value)).Some? && decode(DataPart(value)).value > MaxAvatarSizeBytes)
            ==> r == Invalid(FileTooLarge)
    ensures r.Valid? ==> r.value == value
    ensures r.Valid? <==>
      && StartsWith(value, DataScheme)
      && SingleMarker(value)
      && Mime(value) in AllowedMimes
      && decode(DataPart(value)).Some?
      && decode(DataPart(value)).value <= MaxAvatarSizeBytes
  {
    if |value| == 0 || !StartsWith(value, DataScheme) then Invalid(InvalidImageFormat)
    else PayloadChecked(value, decode, Some(MaxAvatarSizeBytes))
  }

  /**
   `UserCreateSerializer.validate_avatar` as written: a missing or empty value
   means no avatar; otherwise the `data:image` prefix and the same payload
   checks, with no size ceiling.
   */
  function UserCreateAsWritten(value: Option<string>, decode: Decoder): (r: Outcome<Option<string>>)
    ensures r == Valid(None) <==> value.None? || value == Some("")
    ensures value.Some? && value.value != "" && !StartsWith(value.value, ImagePrefix) ==>
      r == Invalid(InvalidImageFormat)
    ensures value.Some? && StartsWith(value.value, ImagePrefix) && !Contains(value.value, Base64Marker) ==>
      r == Invalid(InvalidBase64Format)
    ensures (&& value.Some? && StartsWith(value.value, ImagePrefix) && SingleMarker(value.value)
             && Mime(value.value) !in AllowedMimes)
            ==> r == Invalid(UnsupportedImageFormat)
    ensures (&& value.Some? && StartsWith(value.value, ImagePrefix) && SingleMarker(value.value)
             && Mime(value.value) in AllowedMimes && decode(DataPart(value.value)).None?)
            ==> r == Invalid(DecodingFailed)
    ensures r.Crash? <==>
      value.Some? && StartsWith(value.value, ImagePrefix) && Occurrences(value.value, Base64Marker) >= 2
    ensures r.Valid? && r.value.Some? ==> value == r.value
    ensures r.Valid? && r.value.Some? <==>
      && value.Some?
      && StartsWith(value.value, ImagePrefix)
      && SingleMarker(value.value)
      && Mime(value.value) in AllowedMimes
      && decode(DataPart(value.value)).Some?
  {
    match value
    case None => Valid(None)
    case Some(v) =>
      if |v| == 0 then Valid(None)
      else if !StartsWith(v, ImagePrefix) then Invalid(InvalidImageFormat)
      else match PayloadAsWritten(v, decode, None)
        case Valid(w) => Valid(Some(w))
        case Invalid(e) => Invalid(e)
        case Crash => Crash
  }

  /** `UserCreateSerializer.validate_avatar` with a repeated marker refused. */
  function UserCreateChecked(value: Option<string>, decode: Decoder): (r: Outcome<Option<string>>)
    ensures !r.Crash?
    ensures r == Valid(None) <==> value.None? || value == Some("")
    ensures value.Some? && value.value != "" && !StartsWith(value.value, ImagePrefix) ==>
      r == Invalid(InvalidImageFormat)
    ensures value.Some? && StartsWith(value.value, ImagePrefix) && !Contains(value.value, Base64Marker) ==>
      r == Invalid(InvalidBase64Format)
    ensures (&& value.Some? && StartsWith(value.value, ImagePrefix) && SingleMarker(value.value)
             && Mime(value.value) !in AllowedMimes)
            ==> r == Invalid(UnsupportedImageFormat)
    ensures (&& value.Some? && StartsWith(value.value, ImagePrefix) && SingleMarker(value.value)
             && Mime(value.value) in AllowedMimes && decode(DataPart(value.value)).None?)
            ==> r == Invalid(DecodingFailed)
    ensures value.Some? && StartsWith(value.value, ImagePrefix) && Occurrences(value.value, Base64Marker) >= 2 ==>
      r == Invalid(InvalidBase64Format)
    ensures r.Valid? && r.value.Some? ==> value == r.value
    ensures r.Valid? && r.value.Some? <==>
      && value.Some?
      && StartsWith(value.value, ImagePrefix)
      && SingleMarker(value.value)
      && Mime(value.value) in AllowedMimes
      && decode(DataPart(value.value)).Some?
  {
    match value
    case None => Valid(None)
    case Some(v) =>
      if |v| == 0 then Valid(None)
      else if !StartsWith(v, ImagePrefix) then Invalid(InvalidImageFormat)
      else match PayloadChecked(v, decode, None)
        case Valid(w) => Valid(Some(w))
        case Invalid(e) => Invalid(e)
        case Crash => assert false; Crash
  }

  /** The guard changes nothing where the code as written does not crash, and turns its crash into a 400. */
  lemma SetAvatarCheckedAgrees(value: string, decode: Decoder)
    ensures !SetAvatarAsWritten(value, decode).Crash? ==>
      SetAvatarChecked(value, decode) == SetAvatarAsWritten(value, decode)
    ensures SetAvatarAsWritten(value, decode).Crash? ==>
      SetAvatarChecked(value, decode) == Invalid(InvalidBase64Format)
  {
  }

  lemma UserCreateCheckedAgrees(value: Option<string>, decode: Decoder)
    ensures !UserCreateAsWritten(value, decode).Crash? ==>
      UserCreateChecked(value, decode) == UserCreateAsWritten(value, decode)
    ensures UserCreateAsWritten(value, decode).Crash? ==>
      UserCreateChecked(value, decode) == Invalid(InvalidBase64Format)
  {
  }

  /** Sign-up has three outcomes: no avatar for an empty value, the avatar as sent, or a refusal of a value that fails a check. */
  lemma UserCreateRefusesBadValue(value: string, decode: Decoder)
    requires value != ""
    requires !(&& StartsWith(value, ImagePrefix) && SingleMarker(value)
               && Mime(value) in AllowedMimes && decode(DataPart(value)).Some?)
    ensures UserCreateChecked(Some(value), decode).Invalid?
    ensures !UserCreateAsWritten(Some(value), decode).Valid?
  {
  }

  /** A value with the marker twice, which passes both the prefix and the marker test. */
  const DoubleMarker: string := "data:image;base64,;base64,"

  lemma MarkerTwice()
    ensures Occurrences(Base64Marker + (Base64Marker + ""), Base64Marker) == 2
  {
    OccurrencesLeading(Base64Marker, Base64Marker + "");
    OccurrencesLeading(Base64Marker, "");
  }

  lemma DoubleMarkerOccurrences()
    ensures Occurrences(DoubleMarker, Base64Marker) == 2
  {
    var s := DoubleMarker;
    var tail := Base64Marker + (Base64Marker + "");
    assert forall i :: 0 <= i < 10 ==> s[i] != Base64Marker[0];
    assert s[10..] == tail;
    OccurrencesSkip(s, Base64Marker, 10);
    MarkerTwice();
  }

  /** Both validators as written answer the double-marker value with a server error, whatever the decoder. */
  lemma DoubleMarkerCrashes(decode: Decoder)
    ensures SetAvatarAsWritten(DoubleMarker, decode) == Crash
    ensures UserCreateAsWritten(Some(DoubleMarker), decode) == Crash
  {
    DoubleMarkerOccurrences();
    assert DoubleMarker[..|DataScheme|] == DataScheme;
    assert DoubleMarker[..|ImagePrefix|] == ImagePrefix;
  }

  lemma ImagePrefixIsData(value: string)
    requires StartsWith(value, ImagePrefix)
    ensures StartsWith(value, DataScheme)
  {
    assert value[..|DataScheme|] == ImagePrefix[..|DataScheme|];
  }

  /**
   For a `data:image` value the two serializers differ only in the ceiling: the
   avatar endpoint accepts exactly what sign-up accepts with at most 5 MiB decoded.
   */
  lemma SetAvatarIsUserCreateWithCeiling(value: string, decode: Decoder)
    requires StartsWith(value, ImagePrefix)
    ensures SetAvatarChecked(value, decode).Valid? <==>
      && UserCreateChecked(Some(value), decode) == Valid(Some(value))
      && decode(DataPart(value)).value <= MaxAvatarSizeBytes
  {
    ImagePrefixIsData(value);
  }

  /** `"jpg" if mime_type in ("image/jpeg", "image/jpg") else "png"` */
  function Extension(mime: string): string
  {
    if mime in JpegMimes then "jpg" else "png"
  }

  /** The file `save`/`create` store: its extension and its decoded size. */
  datatype AvatarFile = AvatarFile(ext: string, size: nat)

  /** The second split and decode of `save` and `create`; both succeed after validation. */
  function StoredFile(value: string, decode: Decoder): (f: AvatarFile)
    requires SingleMarker(value) && decode(DataPart(value)).Some?
  {
    AvatarFile(Extension(Mime(value)), decode(DataPart(value)).value)
  }

  /**
   What `SetAvatarSerializer.save` stores for an accepted value: a `jpg` for the
   two JPEG types, a `png` for `image/png`, never more than 5 MiB.
   */
  lemma SetAvatarStoredFile(value: string, decode: Decoder)
    requires SetAvatarChecked(value, decode).Valid?
    ensures var f := StoredFile(value, decode);
      && (f.ext == "jpg" <==> Mime(value) in JpegMimes)
      && (f.ext == "png" <==> Mime(value) == "image/png")
      && f.size <= MaxAvatarSizeBytes
  {
  }

  /** What `UserCreateSerializer.create` stores for an accepted avatar: the same extension rule, any size. */
  lemma UserCreateStoredFile(value: string, decode: Decoder)
    requires UserCreateChecked(Some(value), decode) == Valid(Some(value))
    ensures var f := StoredFile(value, decode);
      && (f.ext == "jpg" <==> Mime(value) in JpegMimes)
      && (f.ext == "png" <==> Mime(value) == "image/png")
      && Some(f.size) == decode(DataPart(value))
  {
  }
}
