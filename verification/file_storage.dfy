/**
 The file-storage helper: `saveBase64` accepts an image as a data URL and stores it under a
 fresh name in the uploads directory; `save` turns an uploaded file's name into its public URL.
 */
module FileStorage {
  import opened Wrappers
  import opened Text
  import opened FileSystem

  const UploadsDir := "uploads"
  const Prefix := "data:image/"
  const Marker := ";base64,"
  const InvalidFormat := "Formato de string Base64 inválido."

  /** The whitespace that JavaScript's `trim` removes. */
  predicate IsJsSpace(c: char) {
    || c in {'\t', '\n', '\U{000B}', '\U{000C}', '\r', ' ', '\U{00A0}', '\U{1680}'}
    || ('\U{2000}' <= c <= '\U{200A}')
    || c in {'\U{2028}', '\U{2029}', '\U{202F}', '\U{205F}', '\U{3000}', '\U{FEFF}'}
  }

  /** The characters a regular-expression `.` does not match. */
  predicate IsLineTerminator(c: char) {
    c in {'\n', '\r', '\U{2028}', '\U{2029}'}
  }

  /** `s.trim() === ""`. */
  predicate IsBlank(s: string) {
    forall i :: 0 <= i < |s| ==> IsJsSpace(s[i])
  }

  /** A parsed data URL: the image subtype (the file extension) and the base64 payload. */
  datatype DataUrl = DataUrl(ext: string, payload: string)

  /** What the accepted pattern demands of its two parts. */
  predicate WellFormed(d: DataUrl) {
    && |d.ext| > 0
    && (forall i :: 0 <= i < |d.ext| ==> IsLetter(d.ext[i]))
    && |d.payload| > 0
    && (forall i :: 0 <= i < |d.payload| ==> !IsLineTerminator(d.payload[i]))
  }

  function Render(d: DataUrl): string {
    Prefix + d.ext + Marker + d.payload
  }

  /** The length of the longest prefix of `s` made of ASCII letters. */
  function LetterRun(s: string): (n: nat)
    ensures n <= |s|
    ensures forall i :: 0 <= i < n ==> IsLetter(s[i])
    ensures n < |s| ==> !IsLetter(s[n])
  {
    if |s| == 0 || !IsLetter(s[0]) then 0 else 1 + LetterRun(s[1..])
  }

  /**
   The match of `data:image/<letters>;base64,<one or more characters>` against the whole
   string. The letter group is greedy and ';' is not a letter, so it ends at the first non-letter.
   */
  function Parse(s: string): Option<DataUrl> {
    if |s| < |Prefix| || s[..|Prefix|] != Prefix then None
    else
      var rest := s[|Prefix|..];
      var n := LetterRun(rest);
      if n == 0 || |rest| < n + |Marker| || rest[n..n + |Marker|] != Marker then None
      else
        var d := DataUrl(rest[..n], rest[n + |Marker|..]);
        if WellFormed(d) then Some(d) else None
  }

  /** Every well-formed data URL is accepted and parses back to its own parts. */
  lemma ParseRender(d: DataUrl)
    requires WellFormed(d)
    ensures Parse(Render(d)) == Some(d)
  {
    var s := Render(d);
    assert s[..|Prefix|] == Prefix;
    var rest := s[|Prefix|..];
    assert rest == d.ext + Marker + d.payload;
    var n := LetterRun(rest);
    assert !IsLetter(rest[|d.ext|]);
    assert n == |d.ext|;
    assert rest[n..n + |Marker|] == Marker;
    assert rest[..n] == d.ext;
    assert rest[n + |Marker|..] == d.payload;
  }

  /** Every accepted string is exactly the rendering of the well-formed parts it yields. */
  lemma RenderParse(s: string)
    requires Parse(s).Some?
    ensures WellFormed(Parse(s).value) && Render(Parse(s).value) == s
  {
    var rest := s[|Prefix|..];
    var n := LetterRun(rest);
    assert rest == rest[..n] + rest[n..n + |Marker|] + rest[n + |Marker|..];
    assert s == s[..|Prefix|] + rest;
  }

  /**
   `saveBase64`: a missing or blank input yields no URL and writes nothing; otherwise the uploads
   directory is ensured, a malformed input throws, and a well-formed one is written to
   `uploads/{name}.{ext}` and its URL `/uploads/{name}.{ext}` returned. `name` is the fresh uuid.
   */
  function SaveBase64(fs: Fs, input: Option<string>, name: string): (r: (Fs, Result<Option<string>>))
    ensures (input.None? || IsBlank(input.value)) ==> r == (fs, Ok(None))
    ensures input.Some? && !IsBlank(input.value) && Parse(input.value).None? ==>
      r == (fs + {UploadsDir}, Err(InvalidFormat))
    ensures input.Some? && !IsBlank(input.value) && Parse(input.value).Some? ==>
      var file := name + "." + Parse(input.value).value.ext;
      r.1 == Ok(Some("/" + UploadsDir + "/" + file)) && r.0 == fs + {UploadsDir, UploadsDir + "/" + file}
  {
    if input.None? || IsBlank(input.value) then (fs, Ok(None))
    else
      var fs1 := fs + {UploadsDir};
      match Parse(input.value)
      case None => (fs1, Err(InvalidFormat))
      case Some(d) =>
        var file := name + "." + d.ext;
        (fs1 + {UploadsDir + "/" + file}, Ok(Some("/" + UploadsDir + "/" + file)))
  }

  /** The extension of a stored data URL is exactly the letters after `image/`, and the URL ends with it. */
  lemma SavedExtension(fs: Fs, d: DataUrl, name: string)
    requires WellFormed(d)
    ensures SaveBase64(fs, Some(Render(d)), name).1 == Ok(Some("/uploads/" + name + "." + d.ext))
  {
    ParseRender(d);
    assert Render(d)[0] == 'd';
    assert !IsBlank(Render(d));
    var r := SaveBase64(fs, Some(Render(d)), name);
    var file := name + "." + d.ext;
    assert r.1 == Ok(Some("/" + UploadsDir + "/" + file));
    assert "/" + UploadsDir + "/" + file == "/uploads/" + name + "." + d.ext;
  }

  /** `save`: the public URL of an uploaded file is `/uploads/` followed by its stored name. */
  function Save(fs: Fs, filename: string): (r: (Fs, string))
    ensures r.0 == fs + {UploadsDir}
    ensures |r.1| == 9 + |filename| && r.1[..9] == "/uploads/" && r.1[9..] == filename
  {
    (fs + {UploadsDir}, "/" + UploadsDir + "/" + filename)
  }
}
